/** `Util.move`, the older copy: width mode when `minWidth` is truthy,
    otherwise one unconditional move. */
module UtilMove {
  import opened Seqs
  import opened DomTree
  import opened Dom
  import opened Relocate
  import opened Relocator

  /** The options object; an option that is absent or null is `None`. The
      element and the reference nodes are nodes of the document. */
  datatype Options = Options(
    el: Option<Node>,
    before: Option<Node>, after: Option<Node>,
    appendTo: Option<Node>, prependTo: Option<Node>,
    minWidth: Option<int>, refreshRate: Option<int>)

  function OptionsPlacement(o: Options): Placement {
    ChosenPlacement(o.before, o.after, o.prependTo, o.appendTo)
  }

  /** Every node the options name belongs to the document. */
  ghost predicate OptionsIn(o: Options, t: Tree) {
    && (o.el.Some? ==> o.el.value in t.children)
    && (o.before.Some? ==> o.before.value in t.children)
    && (o.after.Some? ==> o.after.value in t.children)
    && (o.appendTo.Some? ==> o.appendTo.value in t.children)
    && (o.prependTo.Some? ==> o.prependTo.value in t.children)
  }

  /** Width mode exactly when `minWidth` is truthy, with that threshold;
      this copy has no media-query mode. */
  function SelectMode(o: Options): (m: Mode)
    ensures m.MinWidth? <==> MinWidthSet(o.minWidth)
    ensures m.MinWidth? ==> m.threshold == o.minWidth.value
    ensures m != MatchMedia
  {
    if MinWidthSet(o.minWidth) then MinWidth(o.minWidth.value) else Always
  }

  /** A `minWidth` of 0 is falsy: the element moves once, whatever the
      width, and no resize listener is added. */
  lemma ZeroMinWidthMovesOnce(o: Options)
    requires o.minWidth == Some(0)
    ensures SelectMode(o) == Always
  {
  }

  /** One `Util.move(options)` call at viewport width `width`. */
  method Move(doc: Document, o: Options, width: int)
    returns (h: Node, err: Option<DomError>, listener: Listener)
    requires doc.Valid() && OptionsIn(o, doc.Snapshot())
    modifies doc
    ensures doc.Valid() && h !in old(doc.children)
    ensures var r := SetUp(old(doc.Snapshot()), doc.body, h, o.el, OptionsPlacement(o), SelectMode(o), width, false);
      && (r.Ok? ==> err == None && doc.Snapshot() == r.value.tree)
      && (r.Err? ==> err == Some(r.error) && doc.Snapshot() == Injected(old(doc.Snapshot()), doc.body, h))
    ensures !listener.MediaChange?
    ensures listener.Resize? <==> err == None && MinWidthSet(o.minWidth)
    ensures listener.Resize? ==>
      var l := listener.listener;
      && fresh(l) && fresh(l.mover) && fresh(l.debouncer) && l.Valid() && l.mover.doc == doc
      && l.mover.config == SetUpConfig(old(doc.Snapshot()), doc.body, h, o.el.value, OptionsPlacement(o))
      && l.minWidth == o.minWidth.value && l.debouncer.State() == Debounce.Debounce(o.refreshRate, false, None)
  {
    h, err, listener := Start(doc, o.el, OptionsPlacement(o), SelectMode(o), o.refreshRate, width, false);
  }
}
