/** `UtilityMove`, the newer copy: as `Util.move`, plus a media-query mode
    that takes precedence over width mode when asked for and usable. */
module UtilityMove {
  import opened Seqs
  import opened DomTree
  import opened Dom
  import opened Relocate
  import opened Relocator
  import UtilMove

  /** The options object; an option that is absent or null is `None`, an
      absent `mediaQuery` is the empty string. */
  datatype Options = Options(
    el: Option<Node>,
    before: Option<Node>, after: Option<Node>,
    appendTo: Option<Node>, prependTo: Option<Node>,
    minWidth: Option<int>, refreshRate: Option<int>,
    useMatchMedia: bool, mediaQuery: string)

  /** What `window.matchMedia(options.mediaQuery)` returns: the serialised
      query (`"not all"` for one that does not parse) and whether it matches
      now. Parsing is the host's. */
  datatype MediaQueryList = MediaQueryList(media: string, matches: bool)

  /** The same options without the media-query fields, as the older copy
      takes them. */
  function Legacy(o: Options): UtilMove.Options {
    UtilMove.Options(o.el, o.before, o.after, o.appendTo, o.prependTo, o.minWidth, o.refreshRate)
  }

  /** Media-query mode is asked for, a query is given, and it parsed. */
  predicate MediaUsable(o: Options, mql: MediaQueryList): (b: bool)
    ensures b ==> o.useMatchMedia
    ensures o.mediaQuery == "" || mql.media == "not all" ==> !b
    ensures o.useMatchMedia && o.mediaQuery != "" && mql.media != "not all" ==> b
  {
    o.useMatchMedia && o.mediaQuery != "" && mql.media != "not all"
  }

  /** Media-query mode when usable; otherwise width mode when `minWidth` is
      truthy and media-query mode was not asked for; otherwise one
      unconditional move. */
  function SelectMode(o: Options, mql: MediaQueryList): (m: Mode)
    ensures m == MatchMedia <==> MediaUsable(o, mql)
    ensures m.MinWidth? <==> !o.useMatchMedia && MinWidthSet(o.minWidth)
    ensures m.MinWidth? ==> m.threshold == o.minWidth.value
  {
    if MediaUsable(o, mql) then MatchMedia
    else if MinWidthSet(o.minWidth) && !o.useMatchMedia then MinWidth(o.minWidth.value)
    else Always
  }

  /** Asking for media-query mode with a missing or unparsable query does
      not fall back to width mode, even with `minWidth` given: the element
      moves once and no listener is added. */
  lemma UnusableQueryMovesOnce(o: Options, mql: MediaQueryList)
    requires o.useMatchMedia && !MediaUsable(o, mql)
    ensures SelectMode(o, mql) == Always
  {
  }

  /** Without `useMatchMedia` the two copies choose the same mode. */
  lemma AgreesWithUtilMove(o: Options, mql: MediaQueryList)
    requires !o.useMatchMedia
    ensures SelectMode(o, mql) == UtilMove.SelectMode(Legacy(o))
  {
  }

  /** One `UtilityMove(options)` call at viewport width `width`, with the
      media query list the host returns for `options.mediaQuery`. */
  method Move(doc: Document, o: Options, mql: MediaQueryList, width: int)
    returns (h: Node, err: Option<DomError>, listener: Listener)
    requires doc.Valid() && UtilMove.OptionsIn(Legacy(o), doc.Snapshot())
    modifies doc
    ensures doc.Valid() && h !in old(doc.children)
    ensures var r := SetUp(old(doc.Snapshot()), doc.body, h, o.el, UtilMove.OptionsPlacement(Legacy(o)),
                           SelectMode(o, mql), width, mql.matches);
      && (r.Ok? ==> err == None && doc.Snapshot() == r.value.tree)
      && (r.Err? ==> err == Some(r.error) && doc.Snapshot() == Injected(old(doc.Snapshot()), doc.body, h))
    ensures listener.MediaChange? <==> err == None && MediaUsable(o, mql)
    ensures listener.Resize? <==> err == None && !o.useMatchMedia && MinWidthSet(o.minWidth)
    ensures listener.MediaChange? ==>
      var m := listener.mover;
      && fresh(m) && m.Valid() && m.doc == doc
      && m.config == SetUpConfig(old(doc.Snapshot()), doc.body, h, o.el.value, UtilMove.OptionsPlacement(Legacy(o)))
      && m.stop == mql.matches
    ensures listener.Resize? ==>
      var l := listener.listener;
      && fresh(l) && fresh(l.mover) && fresh(l.debouncer) && l.Valid() && l.mover.doc == doc
      && l.mover.config == SetUpConfig(old(doc.Snapshot()), doc.body, h, o.el.value, UtilMove.OptionsPlacement(Legacy(o)))
      && l.minWidth == o.minWidth.value && l.debouncer.State() == Debounce.Debounce(o.refreshRate, false, None)
  {
    h, err, listener := Start(doc, o.el, UtilMove.OptionsPlacement(Legacy(o)), SelectMode(o, mql),
                              o.refreshRate, width, mql.matches);
  }
}
