/** The state each set-up call creates and its listeners then update in
    place: the `stop` flag shared by `elMove` and `elReset`, the live
    document they rewrite, and the debounced resize listener. */
module Relocator {
  import opened Seqs
  import opened DomTree
  import opened Dom
  import opened Debounce
  import opened Relocate

  /** The closure of one set-up call. */
  class Mover {
    const doc: Document
    const config: Config
    /** The source's `stop`: true after `elMove`, false after `elReset`. */
    var stop: bool

    ghost predicate Valid()
      reads this, doc
    {
      doc.Valid() && ConfigIn(config, doc.Snapshot())
    }

    function State(): State
      reads this, doc
    {
      Relocate.State(doc.Snapshot(), stop)
    }

    /** Captures the element's parent and next sibling as they are now. */
    constructor (doc: Document, el: Node, placement: Placement)
      requires doc.Valid() && el in doc.children && PlacementIn(placement, doc.Snapshot())
      ensures Valid() && this.doc == doc && !stop
      ensures config == Capture(doc.Snapshot(), el, placement)
    {
      this.doc := doc;
      config := Capture(doc.Snapshot(), el, placement);
      stop := false;
    }

    /** The insertion of `elMove`, on the document alone. */
    method PlaceElement() returns (err: Option<DomError>)
      requires Valid()
      modifies doc
      ensures doc.Valid() && doc.nextNode == old(doc.nextNode)
      ensures Committed(Place(old(doc.Snapshot()), config.el, config.placement), old(doc.Snapshot()), doc.Snapshot(), err)
    {
      var el := config.el;
      ghost var t := doc.Snapshot();
      match config.placement {
        case Before(b) =>
          var p := ParentOf(doc.Snapshot(), b);
          ChildFacts(t, b);
          if p.None? {
            return Some(TypeError);
          }
          assert Place(t, el, config.placement) == PreInsert(t, el, p.value, Some(b));
          err := doc.InsertBefore(p.value, el, Some(b));
        case After(a) =>
          var p := ParentOf(doc.Snapshot(), a);
          ChildFacts(t, a);
          if p.None? {
            return Some(TypeError);
          }
          var ref := NextSibling(doc.Snapshot(), a);
          assert Place(t, el, config.placement) == PreInsert(t, el, p.value, ref);
          err := doc.InsertBefore(p.value, el, ref);
        case PrependTo(k) =>
          var ref := FirstChild(doc.Snapshot(), k);
          assert Place(t, el, config.placement) == PreInsert(t, el, k, ref);
          err := doc.InsertBefore(k, el, ref);
        case AppendTo(k) =>
          err := doc.AppendChild(k, el);
        case Nowhere =>
          err := None;
      }
    }

    /** `elMove`. */
    method ElMove() returns (err: Option<DomError>)
      requires Valid()
      modifies this, doc
      ensures Valid() && doc.nextNode == old(doc.nextNode)
      ensures Committed(MoveStep(config, old(State())), old(State()), State(), err)
    {
      err := PlaceElement();
      if err.None? {
        stop := true;
      }
    }

    /** The insertion of `elReset`, on the document alone. */
    method Restore() returns (err: Option<DomError>)
      requires Valid()
      modifies doc
      ensures doc.Valid() && doc.nextNode == old(doc.nextNode)
      ensures Committed(Relocate.Restore(old(doc.Snapshot()), config), old(doc.Snapshot()), doc.Snapshot(), err)
    {
      if config.originalParent.None? {
        return Some(TypeError);
      }
      var p := config.originalParent.value;
      if config.originalSibling.Some? {
        err := doc.InsertBefore(p, config.el, config.originalSibling);
      } else {
        err := doc.AppendChild(p, config.el);
      }
    }

    /** `elReset`. */
    method ElReset() returns (err: Option<DomError>)
      requires Valid()
      modifies this, doc
      ensures Valid() && doc.nextNode == old(doc.nextNode)
      ensures Committed(ResetStep(config, old(State())), old(State()), State(), err)
    {
      ghost var r := Relocate.Restore(doc.Snapshot(), config);
      assert ResetStep(config, State()) == if r.Ok? then Ok(Relocate.State(r.value, false)) else Err(r.error);
      err := Restore();
      if err.None? {
        stop := false;
      }
    }

    /** `matchMediaListener`: move on a match, reset otherwise. */
    method MatchMediaListener(matches: bool) returns (err: Option<DomError>)
      requires Valid()
      modifies this, doc
      ensures Valid() && doc.nextNode == old(doc.nextNode)
      ensures Committed(Apply(config, old(State()), MediaListenerDecision(matches)),
                        old(State()), State(), err)
    {
      if matches {
        err := ElMove();
      } else {
        err := ElReset();
      }
    }

    /** The body of the debounced resize listener, at the current width. */
    method ResizeHandler(minWidth: int, width: int) returns (err: Option<DomError>)
      requires Valid()
      modifies this, doc
      ensures Valid() && doc.nextNode == old(doc.nextNode)
      ensures Committed(ResizeStep(config, minWidth, old(State()), width), old(State()), State(), err)
    {
      if width > minWidth && !stop {
        err := ElMove();
      } else if width <= minWidth && stop {
        err := ElReset();
      } else {
        err := None;
      }
    }

    /** The width check made once at set-up. */
    method InitialWidthCheck(minWidth: int, width: int) returns (err: Option<DomError>)
      requires Valid()
      modifies this, doc
      ensures Valid() && doc.nextNode == old(doc.nextNode)
      ensures Committed(Apply(config, old(State()), InitialWidthDecision(width, minWidth, old(stop))),
                        old(State()), State(), err)
    {
      if width > minWidth && !stop {
        err := ElMove();
      } else if width <= minWidth {
        err := ElReset();
      } else {
        err := None;
      }
    }

    /** The first step of a set-up in the given mode. */
    method FirstStep(mode: Mode, width: int, matches: bool) returns (err: Option<DomError>)
      requires Valid()
      modifies this, doc
      ensures Valid() && doc.nextNode == old(doc.nextNode)
      ensures Committed(InitialStep(config, old(State()), mode, width, matches), old(State()), State(), err)
    {
      match mode {
        case MatchMedia =>
          if matches {
            err := ElMove();
          } else {
            err := None;
          }
        case MinWidth(minWidth) =>
          err := InitialWidthCheck(minWidth, width);
        case Always =>
          err := ElMove();
      }
    }
  }

  /** The resize listener of width mode: every `resize` event is a call of
      the debounced function; when its timeout runs, the handler reads the
      width at that moment. */
  class ResizeListener {
    const mover: Mover
    const minWidth: int
    const debouncer: Debouncer<()>

    ghost predicate Valid()
      reads this, mover, mover.doc
    {
      mover.Valid() && !debouncer.immediate
    }

    /** `UtilityDebouce(handler, refreshRate)`: not immediate, nothing pending. */
    constructor (mover: Mover, minWidth: int, refreshRate: Option<int>)
      requires mover.Valid()
      ensures Valid() && this.mover == mover && this.minWidth == minWidth
      ensures fresh(debouncer) && debouncer.State() == Debounce(refreshRate, false, None)
    {
      this.mover := mover;
      this.minWidth := minWidth;
      debouncer := new Debouncer(refreshRate, false);
    }

    /** A `resize` event at time `now`: reschedules the pending timeout and
        runs nothing now. */
    method OnResize(now: int)
      requires Valid()
      modifies debouncer
      ensures debouncer.State() == Called(old(debouncer.State()), now, ()).0
    {
      var run := debouncer.Call(now, ());
    }

    /** The host's timer step at time `now`, with the viewport `width` at
        that moment: when the pending timeout is due, the handler runs. */
    method OnTimer(now: int, width: int) returns (err: Option<DomError>)
      requires Valid()
      modifies debouncer, mover, mover.doc
      ensures Valid()
      ensures debouncer.State() == Fired(old(debouncer.State()), now).0
      ensures Fired(old(debouncer.State()), now).1.Some? ==>
        Committed(ResizeStep(mover.config, minWidth, old(mover.State()), width),
                  old(mover.State()), mover.State(), err)
      ensures Fired(old(debouncer.State()), now).1.None? ==>
        err == None && mover.State() == old(mover.State())
    {
      var run := debouncer.Fire(now);
      err := None;
      if run.Some? {
        err := mover.ResizeHandler(minWidth, width);
      }
    }
  }

  /** What a set-up call leaves registered. */
  datatype Listener = NoListener | MediaChange(mover: Mover) | Resize(listener: ResizeListener)

  /** The accessibility helper: a new `div` with id `move-helper-text`,
      appended to `body`, which gets `aria-describedby` pointing at it. */
  method InjectHelper(doc: Document) returns (h: Node)
    requires doc.Valid()
    modifies doc
    ensures doc.Valid() && h !in old(doc.children)
    ensures doc.Snapshot() == Injected(old(doc.Snapshot()), doc.body, h)
  {
    ghost var t := doc.Snapshot();
    h := doc.CreateElement();
    doc.SetAttribute(h, "id", HelperId);
    ghost var t1 := doc.Snapshot();
    ChildlessNotAncestor(t1, h, doc.body, |t1.parent|);
    AppendDetached(t1, doc.body, h);
    var err := doc.AppendChild(doc.body, h);
    doc.SetAttribute(doc.body, DescribedBy, HelperId);
  }

  /** The body of a set-up call once its mode is chosen: inject the helper,
      read the element (throwing when there is none), capture its place,
      take the mode's first step and, when that did not throw, register the
      mode's listener. */
  method Start(doc: Document, el: Option<Node>, pl: Placement, mode: Mode,
               refreshRate: Option<int>, width: int, matches: bool)
    returns (h: Node, err: Option<DomError>, listener: Listener)
    requires doc.Valid() && PlacementIn(pl, doc.Snapshot()) && (el.Some? ==> el.value in doc.children)
    modifies doc
    ensures doc.Valid() && h !in old(doc.children)
    ensures var r := SetUp(old(doc.Snapshot()), doc.body, h, el, pl, mode, width, matches);
      && (r.Ok? ==> err == None && doc.Snapshot() == r.value.tree)
      && (r.Err? ==> err == Some(r.error) && doc.Snapshot() == Injected(old(doc.Snapshot()), doc.body, h))
    ensures listener.MediaChange? <==> err == None && mode == MatchMedia
    ensures listener.Resize? <==> err == None && mode.MinWidth?
    ensures listener.MediaChange? ==>
      var m := listener.mover;
      && fresh(m) && m.Valid() && m.doc == doc
      && m.config == SetUpConfig(old(doc.Snapshot()), doc.body, h, el.value, pl)
      && m.stop == SetUp(old(doc.Snapshot()), doc.body, h, el, pl, mode, width, matches).value.moved
    ensures listener.Resize? ==>
      var l := listener.listener;
      && fresh(l) && fresh(l.mover) && fresh(l.debouncer) && l.Valid() && l.mover.doc == doc
      && l.mover.config == SetUpConfig(old(doc.Snapshot()), doc.body, h, el.value, pl)
      && l.mover.stop == SetUp(old(doc.Snapshot()), doc.body, h, el, pl, mode, width, matches).value.moved
      && l.minWidth == mode.threshold && l.debouncer.State() == Debounce(refreshRate, false, None)
  {
    ghost var t := doc.Snapshot();
    h := InjectHelper(doc);
    InjectedByCalls(t, doc.body, h);
    listener := NoListener;
    if el.None? {
      return h, Some(TypeError), NoListener;
    }
    ghost var s0 := State(doc.Snapshot(), false);
    var mover := new Mover(doc, el.value, pl);
    assert mover.config == SetUpConfig(t, doc.body, h, el.value, pl);
    assert mover.State() == s0;
    assert SetUp(t, doc.body, h, el, pl, mode, width, matches) == InitialStep(mover.config, s0, mode, width, matches);
    err := mover.FirstStep(mode, width, matches);
    if err.None? {
      if mode.MatchMedia? {
        listener := MediaChange(mover);
      } else if mode.MinWidth? {
        var l := new ResizeListener(mover, mode.threshold, refreshRate);
        listener := Resize(l);
      }
    }
  }
}
