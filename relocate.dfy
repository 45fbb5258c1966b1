/** What the two copies of the mover share: the placement options, the
    captured original position, `elMove` and `elReset` with the `stop` flag
    they set, the decisions the resize, media-query and set-up code take on
    that flag, and the accessibility helper node added to `body`. */
module Relocate {
  import opened Seqs
  import opened DomTree

  /** The placement option `elMove` acts on. */
  datatype Placement =
    | Before(ref: Node)
    | After(ref: Node)
    | PrependTo(container: Node)
    | AppendTo(container: Node)
    | Nowhere

  /** The first given option wins, in the order `before`, `after`,
      `prependTo`, `appendTo`; with none given there is no placement. */
  function ChosenPlacement(before: Option<Node>, after: Option<Node>,
                           prependTo: Option<Node>, appendTo: Option<Node>): (pl: Placement)
    ensures before.Some? ==> pl == Before(before.value)
    ensures before.None? && after.Some? ==> pl == After(after.value)
    ensures before.None? && after.None? && prependTo.Some? ==> pl == PrependTo(prependTo.value)
    ensures before.None? && after.None? && prependTo.None? && appendTo.Some? ==>
      pl == AppendTo(appendTo.value)
    ensures pl == Nowhere <==> before.None? && after.None? && prependTo.None? && appendTo.None?
  {
    if before.Some? then Before(before.value)
    else if after.Some? then After(after.value)
    else if prependTo.Some? then PrependTo(prependTo.value)
    else if appendTo.Some? then AppendTo(appendTo.value)
    else Nowhere
  }

  /** The element, its placement, and its parent and next sibling as they
      were captured at set-up (`storeOriginalParent`, `storeOriginalSibling`). */
  datatype Config = Config(el: Node, placement: Placement,
                           originalParent: Option<Node>, originalSibling: Option<Node>)

  /** The document and the `stop` flag ("moved"). */
  datatype State = State(tree: Tree, moved: bool)

  function Capture(t: Tree, el: Node, pl: Placement): (c: Config)
    requires Valid(t) && el in t.children && PlacementIn(pl, t)
    ensures ConfigIn(c, t)
  {
    ChildFacts(t, el);
    Config(el, pl, ParentOf(t, el), NextSibling(t, el))
  }

  ghost predicate PlacementIn(pl: Placement, t: Tree) {
    match pl
    case Before(r) => r in t.children
    case After(r) => r in t.children
    case PrependTo(k) => k in t.children
    case AppendTo(k) => k in t.children
    case Nowhere => true
  }

  /** Every node the configuration names exists in the document. */
  ghost predicate ConfigIn(c: Config, t: Tree) {
    && c.el in t.children
    && PlacementIn(c.placement, t)
    && (c.originalParent.Some? ==> c.originalParent.value in t.children)
    && (c.originalSibling.Some? ==> c.originalSibling.value in t.children)
  }

  /** The insertion `elMove` performs. A reference node without a parent
      makes `parentNode.insertBefore` a call on `null`. */
  function Place(t: Tree, el: Node, pl: Placement): (r: Result<Tree>)
    requires Valid(t) && el in t.children && PlacementIn(pl, t)
    ensures r.Ok? ==> Valid(r.value) && r.value.children.Keys == t.children.Keys
  {
    match pl
    case Before(b) =>
      ChildFacts(t, b);
      if ParentOf(t, b).None? then Err(TypeError) else PreInsert(t, el, ParentOf(t, b).value, Some(b))
    case After(a) =>
      ChildFacts(t, a);
      if ParentOf(t, a).None? then Err(TypeError)
      else PreInsert(t, el, ParentOf(t, a).value, NextSibling(t, a))
    case PrependTo(k) => PreInsert(t, el, k, FirstChild(t, k))
    case AppendTo(k) => AppendChild(t, k, el)
    case Nowhere => Ok(t)
  }

  /** `elMove`: the insertion, then `stop = true`; a throwing insertion skips
      the flag. */
  function MoveStep(c: Config, s: State): (r: Result<State>)
    requires Valid(s.tree) && ConfigIn(c, s.tree)
    ensures r.Ok? ==> r.value.moved
    ensures r.Ok? ==> Valid(r.value.tree) && r.value.tree.children.Keys == s.tree.children.Keys
  {
    match Place(s.tree, c.el, c.placement)
    case Ok(t) => Ok(State(t, true))
    case Err(e) => Err(e)
  }

  /** The insertion `elReset` performs: back before the captured sibling,
      or appended to the captured parent when there was none. A missing
      captured parent makes the call a call on `null`. */
  function Restore(t: Tree, c: Config): (r: Result<Tree>)
    requires Valid(t) && ConfigIn(c, t)
    ensures r.Ok? ==> Valid(r.value) && r.value.children.Keys == t.children.Keys
  {
    if c.originalParent.None? then Err(TypeError)
    else if c.originalSibling.Some? then PreInsert(t, c.el, c.originalParent.value, c.originalSibling)
    else AppendChild(t, c.originalParent.value, c.el)
  }

  /** `elReset`: the insertion, then `stop = false`; a throwing insertion
      skips the flag. */
  function ResetStep(c: Config, s: State): (r: Result<State>)
    requires Valid(s.tree) && ConfigIn(c, s.tree)
    ensures r.Ok? ==> !r.value.moved
    ensures r.Ok? ==> Valid(r.value.tree) && r.value.tree.children.Keys == s.tree.children.Keys
  {
    match Restore(s.tree, c)
    case Ok(t) => Ok(State(t, false))
    case Err(e) => Err(e)
  }

  /** What a handler does: call `elMove`, call `elReset`, or nothing. */
  datatype Action = DoMove | DoReset | Idle

  function Apply(c: Config, s: State, a: Action): (r: Result<State>)
    requires Valid(s.tree) && ConfigIn(c, s.tree)
    ensures r.Ok? ==> Valid(r.value.tree) && r.value.tree.children.Keys == s.tree.children.Keys
  {
    match a
    case DoMove => MoveStep(c, s)
    case DoReset => ResetStep(c, s)
    case Idle => Ok(s)
  }

  /** The debounced resize handler: move when wider than `minWidth` and not
      moved, reset when not wider and moved. */
  function ResizeDecision(width: int, minWidth: int, moved: bool): (a: Action)
    ensures a == Idle <==> moved == (width > minWidth)
    ensures a == DoMove ==> width > minWidth
    ensures a == DoReset ==> width <= minWidth
  {
    if width > minWidth && !moved then DoMove
    else if width <= minWidth && moved then DoReset
    else Idle
  }

  /** The width check at set-up: the reset branch does not look at the flag. */
  function InitialWidthDecision(width: int, minWidth: int, moved: bool): (a: Action)
    ensures a == DoReset <==> width <= minWidth
    ensures a == DoMove <==> width > minWidth && !moved
  {
    if width > minWidth && !moved then DoMove
    else if width <= minWidth then DoReset
    else Idle
  }

  /** Media-query mode at set-up: move on a match, otherwise do nothing. */
  function MediaSetupDecision(matches: bool): (a: Action)
    ensures a != DoReset
    ensures a == DoMove <==> matches
  {
    if matches then DoMove else Idle
  }

  /** The media-query change listener: move on a match, reset otherwise. */
  function MediaListenerDecision(matches: bool): (a: Action)
    ensures a != Idle
    ensures a == DoMove <==> matches
  {
    if matches then DoMove else DoReset
  }

  /** `minWidth` is truthy: given and not 0. */
  predicate MinWidthSet(minWidth: Option<int>): (b: bool)
    ensures b ==> minWidth.Some?
    ensures minWidth == Some(0) ==> !b
    ensures minWidth.Some? && minWidth.value != 0 ==> b
  {
    minWidth.Some? && minWidth.value != 0
  }

  /** How the mover is driven after set-up. */
  datatype Mode = MatchMedia | MinWidth(threshold: int) | Always

  /** The set-up step of each mode; `Always` is the unconditional move. */
  function InitialStep(c: Config, s: State, mode: Mode, width: int, matches: bool): (r: Result<State>)
    requires Valid(s.tree) && ConfigIn(c, s.tree)
    ensures r.Ok? ==> Valid(r.value.tree) && r.value.tree.children.Keys == s.tree.children.Keys
  {
    match mode
    case MatchMedia => Apply(c, s, MediaSetupDecision(matches))
    case MinWidth(mw) => Apply(c, s, InitialWidthDecision(width, mw, s.moved))
    case Always => MoveStep(c, s)
  }

  /** One run of the debounced resize handler at the given width. */
  function ResizeStep(c: Config, minWidth: int, s: State, width: int): (r: Result<State>)
    requires Valid(s.tree) && ConfigIn(c, s.tree)
    ensures r.Ok? ==> Valid(r.value.tree) && r.value.tree.children.Keys == s.tree.children.Keys
  {
    Apply(c, s, ResizeDecision(width, minWidth, s.moved))
  }

  /** Handler runs at the given widths, in order; a run that throws leaves
      the state as it was and the next run still happens. */
  function ResizeRuns(c: Config, minWidth: int, s: State, widths: seq<int>): (r: State)
    requires Valid(s.tree) && ConfigIn(c, s.tree)
    ensures Valid(r.tree) && r.tree.children.Keys == s.tree.children.Keys
    decreases |widths|
  {
    if widths == [] then s
    else
      var next := match ResizeStep(c, minWidth, s, widths[0])
                  case Ok(s') => s'
                  case Err(_) => s;
      ResizeRuns(c, minWidth, next, widths[1..])
  }

  /** `elMove` puts the element where the chosen option says: directly before
      `before` under its parent, directly after `after`, first in
      `prependTo`, last in `appendTo`; with no option the tree is untouched.
      In every case the flag ends up set. */
  lemma MovePlaces(c: Config, s: State)
    requires Valid(s.tree) && ConfigIn(c, s.tree) && MoveStep(c, s).Ok?
    ensures MoveStep(c, s).value.moved
    ensures var t := MoveStep(c, s).value.tree;
      match c.placement
      case Before(b) =>
        b != c.el ==> ParentOf(t, c.el) == ParentOf(s.tree, b) && NextSibling(t, c.el) == Some(b)
      case After(a) =>
        a != c.el ==> ParentOf(t, c.el) == ParentOf(s.tree, a) && NextSibling(t, a) == Some(c.el)
      case PrependTo(k) => ParentOf(t, c.el) == Some(k) && FirstChild(t, k) == Some(c.el)
      case AppendTo(k) => ParentOf(t, c.el) == Some(k) && LastChild(t, k) == Some(c.el)
      case Nowhere => t == s.tree
  {
    var t0, el := s.tree, c.el;
    var t := MoveStep(c, s).value.tree;
    match c.placement
    case Before(b) =>
      ChildFacts(t0, b);
      PreInsertPlaces(t0, el, ParentOf(t0, b).value, Some(b));
    case After(a) =>
      if a != el {
        ChildFacts(t0, a);
        var p := ParentOf(t0, a).value;
        PreInsertPlaces(t0, el, p, NextSibling(t0, a));
        AfterPlaces(t0, t, el, a, p);
      }
    case PrependTo(k) =>
      PreInsertPlaces(t0, el, k, FirstChild(t0, k));
      DeleteMembers(t0.children[k], el);
      FirstAfterDelete(t0.children[k], el);
      if FirstChild(t0, k) == Some(el) {
        assert el in t0.children[k];
      }
      EndsOrStartsWith(t.children[k], el);
    case AppendTo(k) =>
      PreInsertPlaces(t0, el, k, None);
      EndsOrStartsWith(t.children[k], el);
    case Nowhere =>
  }

  /** The `after` case: inserting before the old next sibling of `a` (or
      appending, when `a` was last) makes the element `a`'s next sibling. */
  lemma AfterPlaces(t0: Tree, t: Tree, el: Node, a: Node, p: Node)
    requires Valid(t0) && Valid(t) && a != el && ParentOf(t0, a) == Some(p)
    requires forall m | m != el :: ParentOf(t, m) == ParentOf(t0, m)
    requires ParentOf(t, el) == Some(p) && p in t0.children && p in t.children
    requires Delete(t.children[p], el) == Delete(t0.children[p], el)
    requires NextSibling(t, el) ==
      if NextSibling(t0, a) == Some(el) then NextSibling(t0, el) else NextSibling(t0, a)
    ensures NextSibling(t, a) == Some(el)
  {
    var l0, l := t0.children[p], t.children[p];
    NextAfterDelete(l0, el, a);
    if NextSibling(t0, a) == Some(el) {
      assert el in l0;
    }
    NextIsInserted(l, el, a);
  }

  /** `elMove` fails only when a `before`/`after` reference has no parent
      (TypeError) or when the element is the target parent or one of its
      ancestors (HierarchyRequestError); never with NotFoundError, since the
      reference child it passes is always a child of the target. */
  lemma MoveErrors(c: Config, s: State)
    requires Valid(s.tree) && ConfigIn(c, s.tree)
    ensures var t := s.tree;
      MoveStep(c, s).Err? <==>
        match c.placement
        case Before(b) => ParentOf(t, b).None? || IsInclusiveAncestor(t, c.el, ParentOf(t, b).value)
        case After(a) => ParentOf(t, a).None? || IsInclusiveAncestor(t, c.el, ParentOf(t, a).value)
        case PrependTo(k) => IsInclusiveAncestor(t, c.el, k)
        case AppendTo(k) => IsInclusiveAncestor(t, c.el, k)
        case Nowhere => false
    ensures MoveStep(c, s).Err? ==> MoveStep(c, s).error != NotFoundError
  {
    var t := s.tree;
    match c.placement
    case Before(b) =>
      ChildFacts(t, b);
    case After(a) =>
      ChildFacts(t, a);
    case PrependTo(k) =>
      ChildFacts(t, k);
    case AppendTo(k) =>
    case Nowhere =>
  }

  /** `elReset` succeeds exactly when there is a captured parent, the element
      is not that parent or one of its ancestors, and the captured sibling
      (if any) is still a child of that parent. It then puts the element
      under the captured parent, before the captured sibling or last, and
      clears the flag. */
  lemma ResetPlaces(c: Config, s: State)
    requires Valid(s.tree) && ConfigIn(c, s.tree)
    ensures var t := s.tree;
      ResetStep(c, s).Ok? <==>
        && c.originalParent.Some?
        && !IsInclusiveAncestor(t, c.el, c.originalParent.value)
        && (c.originalSibling.None? || ParentOf(t, c.originalSibling.value) == c.originalParent)
    ensures ResetStep(c, s).Err? && c.originalParent.None? ==> ResetStep(c, s).error == TypeError
    ensures ResetStep(c, s).Ok? ==>
      var t := ResetStep(c, s).value.tree;
      && !ResetStep(c, s).value.moved
      && ParentOf(t, c.el) == c.originalParent
      && (c.originalSibling != Some(c.el) ==> NextSibling(t, c.el) == c.originalSibling)
  {
    if ResetStep(c, s).Ok? {
      PreInsertPlaces(s.tree, c.el, c.originalParent.value, c.originalSibling);
    }
  }

  /** Moving and then resetting restores the document exactly, for every
      placement and whether or not the element was last: the element is back
      under its original parent before its original next sibling, and every
      other node is where it was. The flag ends cleared. */
  lemma MoveThenReset(t: Tree, el: Node, pl: Placement, moved: bool)
    requires Valid(t) && el in t.children && PlacementIn(pl, t)
    requires el in t.parent && !IsInclusiveAncestor(t, el, t.parent[el])
    requires MoveStep(Capture(t, el, pl), State(t, moved)).Ok?
    ensures var c := Capture(t, el, pl);
      var s1 := MoveStep(c, State(t, moved)).value;
      ResetStep(c, s1) == Ok(State(t, false))
  {
    var c := Capture(t, el, pl);
    var t1 := MoveStep(c, State(t, moved)).value.tree;
    ChildFacts(t, el);
    MoveKeepsOthers(c, State(t, moved));
    AncestryKept(t, t1, el, t.parent[el]);
    RestoreUndoes(t, t1, c);
  }

  /** Whatever moved the element, and only the element, `elReset`'s
      insertion puts the document back exactly as it was captured. */
  lemma RestoreUndoes(t: Tree, t1: Tree, c: Config)
    requires Valid(t) && Valid(t1) && ConfigIn(c, t)
    requires t1.children.Keys == t.children.Keys && t1.attributes == t.attributes
    requires c.el in t.parent && c.originalParent == ParentOf(t, c.el) && c.originalSibling == NextSibling(t, c.el)
    requires !IsInclusiveAncestor(t1, c.el, t.parent[c.el])
    requires forall m | m != c.el :: ParentOf(t1, m) == ParentOf(t, m)
    requires forall q | q in t.children :: Delete(t1.children[q], c.el) == Delete(t.children[q], c.el)
    ensures ConfigIn(c, t1) && Restore(t1, c) == Ok(t)
  {
    var el, p := c.el, t.parent[c.el];
    ChildFacts(t, el);
    assert ConfigIn(c, t1);
    var t2 := Restore(t1, c).value;
    PreInsertPlaces(t1, el, p, c.originalSibling);
    SamePlacementSameTree(t2, t, el);
  }


  /** `elMove` changes the parent of no node but the element, keeps the node
      set and attributes, and leaves every child list as it was apart from
      the element. */
  lemma MoveKeepsOthers(c: Config, s: State)
    requires Valid(s.tree) && ConfigIn(c, s.tree) && MoveStep(c, s).Ok?
    ensures var t := MoveStep(c, s).value.tree;
      && (ParentOf(s.tree, c.el).Some? ==> ParentOf(t, c.el).Some?)
      && t.children.Keys == s.tree.children.Keys && t.attributes == s.tree.attributes
      && (forall m | m != c.el :: ParentOf(t, m) == ParentOf(s.tree, m))
      && (forall q | q in s.tree.children :: Delete(t.children[q], c.el) == Delete(s.tree.children[q], c.el))
  {
    var t0, el := s.tree, c.el;
    match c.placement
    case Before(b) =>
      ChildFacts(t0, b);
      PreInsertPlaces(t0, el, ParentOf(t0, b).value, Some(b));
    case After(a) =>
      ChildFacts(t0, a);
      PreInsertPlaces(t0, el, ParentOf(t0, a).value, NextSibling(t0, a));
    case PrependTo(k) =>
      PreInsertPlaces(t0, el, k, FirstChild(t0, k));
    case AppendTo(k) =>
      PreInsertPlaces(t0, el, k, None);
    case Nowhere =>
  }

  /** `elReset` changes the parent of no node but the element and keeps
      the attributes. */
  lemma ResetKeepsOthers(c: Config, s: State)
    requires Valid(s.tree) && ConfigIn(c, s.tree) && ResetStep(c, s).Ok?
    ensures var t := ResetStep(c, s).value.tree;
      && t.attributes == s.tree.attributes
      && (forall m | m != c.el :: ParentOf(t, m) == ParentOf(s.tree, m))
  {
    var p := c.originalParent.value;
    if c.originalSibling.Some? {
      PreInsertPlaces(s.tree, c.el, p, c.originalSibling);
    } else {
      PreInsertPlaces(s.tree, c.el, p, None);
    }
  }

  /** A mode's first step, when it does not throw, changes the parent of no
      node but the element and keeps the attributes. */
  lemma StepKeepsOthers(c: Config, s: State, mode: Mode, width: int, matches: bool)
    requires Valid(s.tree) && ConfigIn(c, s.tree) && InitialStep(c, s, mode, width, matches).Ok?
    ensures var t := InitialStep(c, s, mode, width, matches).value.tree;
      && t.attributes == s.tree.attributes
      && (forall m | m != c.el :: ParentOf(t, m) == ParentOf(s.tree, m))
  {
    var a := match mode
             case MatchMedia => MediaSetupDecision(matches)
             case MinWidth(mw) => InitialWidthDecision(width, mw, s.moved)
             case Always => DoMove;
    assert InitialStep(c, s, mode, width, matches) == Apply(c, s, a);
    match a
    case DoMove => MoveKeepsOthers(c, s);
    case DoReset => ResetKeepsOthers(c, s);
    case Idle =>
  }

  /** Resetting an element that is still where it was captured leaves the
      document as it is (only the flag is cleared); an element captured
      without a parent cannot be reset. */
  lemma ResetInPlace(t: Tree, el: Node, pl: Placement, moved: bool)
    requires Valid(t) && el in t.children && PlacementIn(pl, t)
    ensures el in t.parent && !IsInclusiveAncestor(t, el, t.parent[el]) ==>
        ResetStep(Capture(t, el, pl), State(t, moved)) == Ok(State(t, false))
    ensures el !in t.parent ==> ResetStep(Capture(t, el, pl), State(t, moved)) == Err(TypeError)
  {
    if el in t.parent && !IsInclusiveAncestor(t, el, t.parent[el]) {
      ReinsertInPlace(t, el);
    }
  }

  /** The resize handler acts only when the flag disagrees with the width
      test: when they agree it changes nothing; otherwise it moves (wider
      than `minWidth`) or resets (not wider). */
  lemma ResizeActsOnDisagreement(c: Config, minWidth: int, s: State, width: int)
    requires Valid(s.tree) && ConfigIn(c, s.tree)
    ensures s.moved == (width > minWidth) ==> ResizeStep(c, minWidth, s, width) == Ok(s)
    ensures width > minWidth && !s.moved ==> ResizeStep(c, minWidth, s, width) == MoveStep(c, s)
    ensures width <= minWidth && s.moved ==> ResizeStep(c, minWidth, s, width) == ResetStep(c, s)
  {
  }

  /** After a handler run that did not throw, the flag says "moved" exactly
      when the width is above `minWidth`, and a second run at the same width
      changes nothing. */
  lemma ResizeSettles(c: Config, minWidth: int, s: State, width: int)
    requires Valid(s.tree) && ConfigIn(c, s.tree)
    requires ResizeStep(c, minWidth, s, width).Ok?
    ensures var s1 := ResizeStep(c, minWidth, s, width).value;
      && s1.moved == (width > minWidth)
      && ResizeStep(c, minWidth, s1, width) == Ok(s1)
  {
  }

  /** Any number of handler runs at one width end in the state a single run
      gives: the first run does all there is to do. */
  lemma {:induction false} RepeatedResize(c: Config, minWidth: int, s: State, width: int, widths: seq<int>)
    requires Valid(s.tree) && ConfigIn(c, s.tree)
    requires |widths| > 0 && forall i | 0 <= i < |widths| :: widths[i] == width
    ensures ResizeRuns(c, minWidth, s, widths) == ResizeRuns(c, minWidth, s, [width])
    decreases |widths|
  {
    var r := ResizeStep(c, minWidth, s, width);
    var next := if r.Ok? then r.value else s;
    assert ResizeRuns(c, minWidth, s, widths) == ResizeRuns(c, minWidth, next, widths[1..]);
    assert ResizeRuns(c, minWidth, s, [width]) == ResizeRuns(c, minWidth, next, []);
    if |widths| > 1 {
      RepeatedResize(c, minWidth, next, width, widths[1..]);
      if r.Ok? {
        ResizeSettles(c, minWidth, s, width);
      }
      assert ResizeRuns(c, minWidth, next, [width]) == ResizeRuns(c, minWidth, next, []);
    }
  }

  /** A media-query change that did not throw leaves the flag equal to
      `matches`. */
  lemma MediaListenerSettles(c: Config, s: State, matches: bool)
    requires Valid(s.tree) && ConfigIn(c, s.tree)
    requires Apply(c, s, MediaListenerDecision(matches)).Ok?
    ensures Apply(c, s, MediaListenerDecision(matches)).value.moved == matches
  {
  }

  /** Media-query set-up moves on an initial match and, on a non-match,
      changes nothing at all, not even by a reset. */
  lemma MediaSetup(c: Config, s: State, width: int, matches: bool)
    requires Valid(s.tree) && ConfigIn(c, s.tree)
    ensures InitialStep(c, s, MatchMedia, width, matches) ==
      if matches then MoveStep(c, s) else Ok(s)
  {
  }

  /** Width-mode set-up, on the document as captured: above `minWidth` it is
      `elMove`; otherwise it is `elReset`, which leaves the document as it is
      because the element is still in its original place (and throws when
      the element had no parent). */
  lemma WidthSetup(t: Tree, el: Node, pl: Placement, width: int, minWidth: int, matches: bool)
    requires Valid(t) && el in t.children && PlacementIn(pl, t)
    ensures var c := Capture(t, el, pl);
      width > minWidth ==>
        InitialStep(c, State(t, false), MinWidth(minWidth), width, matches) == MoveStep(c, State(t, false))
    ensures var c := Capture(t, el, pl);
      width <= minWidth && el in t.parent && !IsInclusiveAncestor(t, el, t.parent[el]) ==>
        InitialStep(c, State(t, false), MinWidth(minWidth), width, matches) == Ok(State(t, false))
    ensures var c := Capture(t, el, pl);
      width <= minWidth && el !in t.parent ==>
        InitialStep(c, State(t, false), MinWidth(minWidth), width, matches) == Err(TypeError)
  {
    ResetInPlace(t, el, pl, false);
  }

  /** The id given to the helper node and the attribute on `body` that
      points at it. */
  const HelperId := "move-helper-text"
  const DescribedBy := "aria-describedby"

  /** The document after one set-up's helper injection: exactly one new node
      `h`, with id `move-helper-text`, last under `body`, and `body`'s
      `aria-describedby` pointing at that id; no other node changes parent. */
  function Injected(t: Tree, body: Node, h: Node): (r: Tree)
    requires body in t.children && h !in t.children
    ensures r.children.Keys == t.children.Keys + {h}
    ensures ParentOf(r, h) == Some(body) && LastChild(r, body) == Some(h)
    ensures forall m | m != h :: ParentOf(r, m) == ParentOf(t, m)
    ensures (h, "id") in r.attributes && r.attributes[(h, "id")] == HelperId
    ensures (body, DescribedBy) in r.attributes && r.attributes[(body, DescribedBy)] == HelperId
  {
    Tree(t.children[h := []][body := t.children[body] + [h]],
         t.parent[h := body],
         t.attributes[(h, "id") := HelperId][(body, DescribedBy) := HelperId])
  }

  /** The injection is what the set-up's DOM calls compute: create the node,
      set its id, append it to `body` (which cannot throw, as the new node
      has no children), point `body` at it. So it keeps the tree well formed. */
  lemma InjectedByCalls(t: Tree, body: Node, h: Node)
    requires Valid(t) && body in t.children && h !in t.children
    ensures var t1 := SetAttribute(AddNode(t, h), h, "id", HelperId);
      && AppendChild(t1, body, h).Ok?
      && Injected(t, body, h) == SetAttribute(AppendChild(t1, body, h).value, body, DescribedBy, HelperId)
    ensures Valid(Injected(t, body, h))
  {
    var t1 := SetAttribute(AddNode(t, h), h, "id", HelperId);
    assert t1.children[body] == t.children[body];
    ChildlessNotAncestor(t1, h, body, |t1.parent|);
    AppendDetached(t1, body, h);
  }

  /** The injection leaves every existing node under the parent it had and
      before the sibling it had, except that the node that was last in
      `body` now has the helper after it. */
  lemma InjectedPlaces(t: Tree, body: Node, h: Node, n: Node)
    requires Valid(t) && body in t.children && h !in t.children && n in t.children
    ensures ParentOf(Injected(t, body, h), n) == ParentOf(t, n)
    ensures NextSibling(Injected(t, body, h), n) ==
      if ParentOf(t, n) == Some(body) && NextSibling(t, n).None? then Some(h) else NextSibling(t, n)
  {
    if n in t.parent && t.parent[n] == body {
      NextAppended(t.children[body], h, n);
    }
  }

  /** Two injections in a row leave two different nodes at the end of
      `body` with the same id: the injection does not look for an existing
      helper. */
  lemma DuplicateHelpers(t: Tree, body: Node, h1: Node, h2: Node)
    requires body in t.children && h1 !in t.children && h2 !in t.children && h1 != h2
    ensures var r := Injected(Injected(t, body, h1), body, h2);
      && r.children[body] == t.children[body] + [h1, h2]
      && r.attributes[(h1, "id")] == HelperId && r.attributes[(h2, "id")] == HelperId
  {
    assert t.children[body] + [h1] + [h2] == t.children[body] + [h1, h2];
  }

  /** What a set-up's mover captures: the element's place once the helper
      is in. Its parent is the one it had before; its next sibling too,
      except that an element that was last in `body` now has the helper
      after it. */
  function SetUpConfig(t: Tree, body: Node, h: Node, el: Node, pl: Placement): (c: Config)
    requires Valid(t) && body in t.children && h !in t.children
    requires PlacementIn(pl, t) && el in t.children
    ensures ConfigIn(c, Injected(t, body, h)) && c.el == el && c.placement == pl
    ensures c.originalParent == ParentOf(t, el)
    ensures c.originalSibling ==
      if ParentOf(t, el) == Some(body) && NextSibling(t, el).None? then Some(h) else NextSibling(t, el)
  {
    InjectedByCalls(t, body, h);
    InjectedPlaces(t, body, h, el);
    Capture(Injected(t, body, h), el, pl)
  }

  /** One set-up call on document `t` with `body` and a new helper node `h`:
      the helper goes in first, then the element (`options.el`) is read,
      which throws when there is none, then the chosen mode's first step
      runs on the document as captured. The helper stays in the document
      whatever follows it. */
  function SetUp(t: Tree, body: Node, h: Node, el: Option<Node>, pl: Placement,
                 mode: Mode, width: int, matches: bool): (r: Result<State>)
    requires Valid(t) && body in t.children && h !in t.children
    requires PlacementIn(pl, t) && (el.Some? ==> el.value in t.children)
    ensures el.None? ==> r == Err(TypeError)
    ensures r.Ok? ==> Valid(r.value.tree) && r.value.tree.children.Keys == t.children.Keys + {h}
  {
    InjectedByCalls(t, body, h);
    var t1 := Injected(t, body, h);
    if el.None? then Err(TypeError)
    else InitialStep(SetUpConfig(t, body, h, el.value, pl), State(t1, false), mode, width, matches)
  }

  /** A set-up that does not throw leaves its helper under `body` with its
      id and `body` pointing at it; no node but the element and the helper
      has changed parent. */
  lemma SetUpKeepsHelper(t: Tree, body: Node, h: Node, el: Node, pl: Placement,
                         mode: Mode, width: int, matches: bool)
    requires Valid(t) && body in t.children && h !in t.children
    requires PlacementIn(pl, t) && el in t.children
    requires SetUp(t, body, h, Some(el), pl, mode, width, matches).Ok?
    ensures var r := SetUp(t, body, h, Some(el), pl, mode, width, matches).value.tree;
      && ParentOf(r, h) == Some(body)
      && r.attributes == Injected(t, body, h).attributes
      && (forall m | m != el && m != h :: ParentOf(r, m) == ParentOf(t, m))
  {
    InjectedByCalls(t, body, h);
    var c := SetUpConfig(t, body, h, el, pl);
    StepKeepsOthers(c, State(Injected(t, body, h), false), mode, width, matches);
  }

  /** Two set-up calls on the same document, neither of which throws and
      the second of which does not move the first call's helper, leave two
      different helper nodes under `body`, both with id
      `move-helper-text`: a second call adds a second helper rather than
      reusing the first. */
  lemma RepeatedSetUps(t: Tree, body: Node, h1: Node, el1: Node, pl1: Placement,
                       mode1: Mode, width1: int, matches1: bool,
                       h2: Node, el2: Node, pl2: Placement,
                       mode2: Mode, width2: int, matches2: bool)
    requires Valid(t) && body in t.children && h1 !in t.children
    requires PlacementIn(pl1, t) && el1 in t.children
    requires SetUp(t, body, h1, Some(el1), pl1, mode1, width1, matches1).Ok?
    requires var t1 := SetUp(t, body, h1, Some(el1), pl1, mode1, width1, matches1).value.tree;
      && h2 !in t1.children && PlacementIn(pl2, t1) && el2 in t1.children && el2 != h1
    requires var t1 := SetUp(t, body, h1, Some(el1), pl1, mode1, width1, matches1).value.tree;
      SetUp(t1, body, h2, Some(el2), pl2, mode2, width2, matches2).Ok?
    ensures var t1 := SetUp(t, body, h1, Some(el1), pl1, mode1, width1, matches1).value.tree;
      var t2 := SetUp(t1, body, h2, Some(el2), pl2, mode2, width2, matches2).value.tree;
      && h1 != h2
      && ParentOf(t2, h1) == Some(body) && ParentOf(t2, h2) == Some(body)
      && (h1, "id") in t2.attributes && t2.attributes[(h1, "id")] == HelperId
      && (h2, "id") in t2.attributes && t2.attributes[(h2, "id")] == HelperId
  {
    var t1 := SetUp(t, body, h1, Some(el1), pl1, mode1, width1, matches1).value.tree;
    SetUpKeepsHelper(t, body, h1, el1, pl1, mode1, width1, matches1);
    assert h1 in t1.children;
    SetUpKeepsHelper(t1, body, h2, el2, pl2, mode2, width2, matches2);
  }

  /** Width mode on the captured document: a set-up above `minWidth` moves
      the element, and the first handler run at a width not above it
      restores the document and clears the flag. */
  lemma WideThenNarrow(t: Tree, el: Node, pl: Placement,
                       minWidth: int, wide: int, narrow: int, matches: bool)
    requires Valid(t) && el in t.children && PlacementIn(pl, t)
    requires el in t.parent && !IsInclusiveAncestor(t, el, t.parent[el])
    requires wide > minWidth >= narrow
    requires InitialStep(Capture(t, el, pl), State(t, false), MinWidth(minWidth), wide, matches).Ok?
    ensures var s1 := InitialStep(Capture(t, el, pl), State(t, false), MinWidth(minWidth), wide, matches).value;
      && s1.moved
      && ResizeStep(Capture(t, el, pl), minWidth, s1, narrow) == Ok(State(t, false))
  {
    WidthSetup(t, el, pl, wide, minWidth, matches);
    MoveThenReset(t, el, pl, false);
  }

  /** Width mode end to end: a set-up on a screen wider than `minWidth`
      moves the element; the first resize handler run at a width not above
      `minWidth` puts it back, leaving the document exactly as it was right
      after the helper was added, with the flag cleared. */
  lemma NarrowingRestores(t: Tree, body: Node, h: Node, el: Node, pl: Placement,
                          minWidth: int, wide: int, narrow: int, matches: bool)
    requires Valid(t) && body in t.children && h !in t.children
    requires PlacementIn(pl, t) && el in t.children && el in t.parent
    requires !IsInclusiveAncestor(Injected(t, body, h), el, t.parent[el])
    requires wide > minWidth >= narrow
    requires SetUp(t, body, h, Some(el), pl, MinWidth(minWidth), wide, matches).Ok?
    ensures var s1 := SetUp(t, body, h, Some(el), pl, MinWidth(minWidth), wide, matches).value;
      && s1.moved
      && ResizeStep(SetUpConfig(t, body, h, el, pl), minWidth, s1, narrow) == Ok(State(Injected(t, body, h), false))
  {
    InjectedByCalls(t, body, h);
    InjectedPlaces(t, body, h, el);
    WideThenNarrow(Injected(t, body, h), el, pl, minWidth, wide, narrow, matches);
  }
}
