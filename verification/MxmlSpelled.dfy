/**
  Loading any spelling of a document gives the document, and misplaced markup ends the load.
*/
module MxmlSpelled {
  import opened Basics
  import opened MxmlAttr
  import opened MxmlEntity
  import opened MxmlLoad
  import opened MxmlReading
  import opened MxmlSpelling
  import opened MxmlTree
  import opened MxmlUtf8

  // ------------------------------------------------------------- text

  /** Inside the root the loop gathers a text, whichever way it is spelled. */
  lemma {:induction false} TextRun(table: seq<Entity>, s: seq<byte>, st: State, xs: seq<Sign>)
    requires LegalTable(table) && AllFine(table, InText, xs) && st.keep && At(s, st.pos, SignsText(xs))
    ensures st.pos + |SignsText(xs)| <= |s|
    ensures Run(table, s, st) == Run(table, s, st.(pos := st.pos + |SignsText(xs)|, buffer := st.buffer + Said(xs)))
    decreases |xs|
  {
    hide GetC, LegalTable, At, SignsText, SignText, Said, AllFine, Fine, Encode, Decoded, Run, Round;
    AtBound(s, st.pos, SignsText(xs));
    if |xs| == 0 {
      SignsNone(xs, st.buffer);
      assert st.(pos := st.pos, buffer := st.buffer) == st;
    } else {
      SignsFirst(table, InText, xs, st.buffer);
      var x := xs[0];
      AtSplit(s, st.pos, SignText(x), SignsText(xs[1..]));
      SignRead(table, s, st.pos, InText, x);
      var st' := st.(pos := st.pos + |SignText(x)|, buffer := st.buffer + Encode(x.c));
      TextRound(table, s, st, x);
      RunGoes(table, s, st, st');
      TextRun(table, s, st', xs[1..]);
    }
  }

  /** What one round makes of a character: it is gathered, but white space where no text is kept ends what was. */
  function TextState(st: State, x: Sign): State {
    var drop := x.Raw? && IsSpace(x.c) && !st.keep;
    st.(pos := st.pos + |SignText(x)|, buffer := if drop then [] else st.buffer + Encode(x.c))
  }

  lemma TextRound(table: seq<Entity>, s: seq<byte>, st: State, x: Sign)
    requires LegalTable(table) && st.pos + |SignText(x)| <= |s| && IsRead(table, s, st.pos, InText, x, st.pos + |SignText(x)|)
    ensures var r := GetC(s, st.pos); Round(table, s, st, r.ch, r.pos) == Go(TextState(st, x))
  {
    hide GetC, SignText, Encode, GetEntity, Markup;
  }

  /** Outside the root text comes to nothing but what is in the buffer. */
  lemma {:induction false} OutsideRun(table: seq<Entity>, s: seq<byte>, st: State, xs: seq<Sign>) returns (buffer: seq<byte>)
    requires LegalTable(table) && AllFine(table, InText, xs) && At(s, st.pos, SignsText(xs))
    ensures st.pos + |SignsText(xs)| <= |s|
    ensures Run(table, s, st) == Run(table, s, st.(pos := st.pos + |SignsText(xs)|, buffer := buffer))
    decreases |xs|
  {
    hide GetC, LegalTable, At, SignsText, SignText, Said, AllFine, Fine, Encode, Decoded, Run, Round;
    AtBound(s, st.pos, SignsText(xs));
    if |xs| == 0 {
      SignsNone(xs, st.buffer);
      buffer := st.buffer;
      assert st.(pos := st.pos, buffer := st.buffer) == st;
    } else {
      SignsFirst(table, InText, xs, st.buffer);
      var x := xs[0];
      AtSplit(s, st.pos, SignText(x), SignsText(xs[1..]));
      SignRead(table, s, st.pos, InText, x);
      TextRound(table, s, st, x);
      RunGoes(table, s, st, TextState(st, x));
      buffer := OutsideRun(table, s, TextState(st, x), xs[1..]);
    }
  }

  /** A text before markup becomes a child. */
  lemma TextRead(table: seq<Entity>, s: seq<byte>, st: State, xs: seq<Sign>)
    requires LegalTable(table) && AllFine(table, InText, xs) && |xs| > 0 && st.buffer == [] && st.keep && |st.open| > 0
    requires At(s, st.pos, SignsText(xs)) && At(s, st.pos + |SignsText(xs)|, [LT])
    ensures st.pos + |SignsText(xs)| <= |s|
    ensures Run(table, s, st) == Run(table, s, Grown(st, [Text(Said(xs))], st.pos + |SignsText(xs)|))
  {
    hide Run, At, SignsText, Said, AllFine, LegalTable, CStr, Encode;
    TextRun(table, s, st, xs);
    var st' := st.(pos := st.pos + |SignsText(xs)|, buffer := Said(xs));
    assert [] + Said(xs) == Said(xs);
    SaidWhole(xs);
    SaidSome(xs);
    FlushFirst(table, s, st');
    FlushGrows(st, st', Said(xs));
  }

  // ------------------------------------------------------ whole trees

  /** The loader with more children below the current parent, at `pos`. */
  function Grown(st: State, ts: seq<Tree>, pos: nat): State
    requires |st.open| > 0
  {
    var last := |st.open| - 1;
    st.(pos := pos, open := st.open[last := st.open[last].(kids := st.open[last].kids + ts)])
  }

  lemma GrownMore(st: State, a: seq<Tree>, p: nat, b: seq<Tree>, q: nat)
    requires |st.open| > 0
    ensures Grown(Grown(st, a, p), b, q) == Grown(st, a + b, q)
    ensures Grown(st, [], st.pos) == st
  {
    var last := |st.open| - 1;
    assert st.open[last].kids + a + b == st.open[last].kids + (a + b);
    assert st.open[last].kids + [] == st.open[last].kids;
    assert st.open[last := st.open[last]] == st.open;
  }

  lemma PlacedGrows(st: State, t: Tree, pos: nat)
    requires |st.open| > 0
    ensures Placed(st.(pos := pos), t) == Grown(st, [t], pos)
  {
  }

  lemma GrownState(st: State, ts: seq<Tree>, pos: nat)
    requires |st.open| > 0
    ensures var g := Grown(st, ts, pos);
      g.pos == pos && g.buffer == st.buffer && g.keep == st.keep && |g.open| == |st.open| && g.root == st.root
  {
  }

  lemma FlushGrows(st: State, st': State, text: seq<byte>)
    requires st.buffer == [] && st.keep && |st.open| > 0 && st' == st.(pos := st'.pos, buffer := text) && CStr(text) == text
    ensures Flushed(st') == Grown(st, [Text(text)], st'.pos)
  {
    hide CStr;
    assert st'.(buffer := []) == st.(pos := st'.pos);
    PlacedGrows(st, Text(text), st'.pos);
  }

  ghost predicate EndsInText(ds: seq<Spelled>) {
    |ds| > 0 && ds[|ds| - 1].Chars?
  }

  lemma AllFirst(table: seq<Entity>, ds: seq<Spelled>)
    requires |ds| > 0 && AllSpelled(table, ds)
    ensures AllText(ds) == SpelledText(ds[0]) + AllText(ds[1..])
    ensures AllMeant(ds) == [Meant(ds[0])] + AllMeant(ds[1..])
    ensures AllFit(AllMeant(ds)) <==> Fits(Meant(ds[0])) && AllFit(AllMeant(ds[1..]))
    ensures SpelledFine(table, ds[0]) && AllSpelled(table, ds[1..]) && (ds[0].Chars? && |ds| > 1 ==> !ds[1].Chars?)
    ensures EndsInText(ds) ==> if |ds| == 1 then ds[0].Chars? else EndsInText(ds[1..])
    ensures EndsInText(ds[1..]) ==> EndsInText(ds)
  {
  }

  lemma AllNone(ds: seq<Spelled>)
    requires |ds| == 0
    ensures AllText(ds) == [] && AllMeant(ds) == [] && AllFit(AllMeant(ds))
  {
  }

  /** Markup starts with `<`. */
  lemma ElemStarts(ds: seq<Spelled>)
    requires |ds| > 0 && !ds[0].Chars?
    ensures |AllText(ds)| > 0 && AllText(ds) == [LT] + AllText(ds)[1..]
  {
    hide RestText, SignsText;
  }

  /** The loader that can take an element: inside an element, or before the root. */
  predicate Ready(st: State) {
    st.buffer == [] && if |st.open| > 0 then st.keep else st.root.None?
  }

  /** Reading an element, however it is spelled, adds what it means to what has been loaded, or ends the load where a name is given twice. */
  lemma {:induction false} ReadElem(table: seq<Entity>, s: seq<byte>, st: State, d: Spelled)
    requires LegalTable(table) && SpelledFine(table, d) && !d.Chars? && Ready(st) && At(s, st.pos, SpelledText(d))
    ensures st.pos + |SpelledText(d)| <= |s|
    ensures Run(table, s, st)
         == if Fits(Meant(d)) then Run(table, s, Placed(st.(pos := st.pos + |SpelledText(d)|, keep := st.keep || d.Full?), Meant(d)))
            else BadDocument
    decreases d, 0
  {
    hide GetC, LegalTable, At, OpeningText, TagFine, Run, Round, Placed, DistinctNames, ClosingText, AllText, AllSpelled, Said, AllFine, White;
    AtBound(s, st.pos, SpelledText(d));
    var attrs := GivenAttrs(d.tag.attrs);
    var opening := OpeningText(d.tag, d.Short?);
    if d.Full? {
      AtSplit(s, st.pos, opening, AllText(d.kids) + ClosingText(d.closing, d.space));
    }
    OpenRound(table, s, st, d.tag, d.Short?);
    if !DistinctNames(attrs) {
      RunStops(table, s, st, BadDocument);
    } else {
      var st1 := AfterOpen(st, Said(d.tag.name), attrs, d.Short?, st.pos + |opening|);
      RunGoes(table, s, st, st1);
      if d.Short? {
        NothingInside();
        assert st1 == Placed(st.(pos := st.pos + |SpelledText(d)|, keep := st.keep || d.Full?), Meant(d)) by {
          assert st.(buffer := []) == st;
        }
      } else {
        ReadInside(table, s, st, d, st1);
      }
    }
  }

  lemma NothingInside()
    ensures AllFit([])
  {
  }

  /** The children of an element and its closing tag. */
  lemma {:induction false} ReadInside(table: seq<Entity>, s: seq<byte>, st: State, d: Spelled, st1: State)
    requires LegalTable(table) && d.Full? && AllSpelled(table, d.kids) && Ready(st)
    requires AllFine(table, InTag, d.closing) && Said(d.closing) == Said(d.tag.name) && White(d.space)
    requires st1 == AfterOpen(st, Said(d.tag.name), GivenAttrs(d.tag.attrs), false, st1.pos)
    requires At(s, st1.pos, AllText(d.kids) + ClosingText(d.closing, d.space))
    ensures var end := st1.pos + |AllText(d.kids)| + |ClosingText(d.closing, d.space)|;
      && end <= |s|
      && Run(table, s, st1)
         == if AllFit(AllMeant(d.kids)) then Run(table, s, Placed(st.(pos := end, keep := true), Meant(d))) else BadDocument
    decreases d.kids, 2
  {
    hide GetC, LegalTable, At, Run, Round, Placed, ClosingText, AllText, AllMeant, AllSpelled, AllFit, Said, AllFine, White;
    var kids, close := AllText(d.kids), ClosingText(d.closing, d.space);
    AtSplit(s, st1.pos, kids, close);
    LtFirst(d.closing, d.space);
    AtSplit(s, st1.pos + |kids|, [LT], close[1..]);
    ReadAll(table, s, st1, d.kids);
    if AllFit(AllMeant(d.kids)) {
      var st2 := Grown(st1, AllMeant(d.kids), st1.pos + |kids|);
      assert [] + AllMeant(d.kids) == AllMeant(d.kids);
      CloseRound(table, s, st2, d.closing, d.space);
      assert st2.open[..|st2.open| - 1] == st.open;
      assert st.(buffer := []) == st;
      RunGoes(table, s, st2, AfterClose(st2, st2.pos + |close|));
    }
  }

  lemma LtFirst(xs: seq<Sign>, space: seq<byte>)
    ensures ClosingText(xs, space) == [LT] + ClosingText(xs, space)[1..]
  {
  }

  /** Reading children adds what they mean. */
  lemma {:induction false} ReadAll(table: seq<Entity>, s: seq<byte>, st: State, ds: seq<Spelled>)
    requires LegalTable(table) && AllSpelled(table, ds) && st.buffer == [] && st.keep && |st.open| > 0
    requires At(s, st.pos, AllText(ds)) && (EndsInText(ds) ==> At(s, st.pos + |AllText(ds)|, [LT]))
    ensures st.pos + |AllText(ds)| <= |s|
    ensures Run(table, s, st)
         == if AllFit(AllMeant(ds)) then Run(table, s, Grown(st, AllMeant(ds), st.pos + |AllText(ds)|)) else BadDocument
    decreases ds, 1
  {
    hide *;
    AtBound(s, st.pos, AllText(ds));
    if |ds| == 0 {
      AllNone(ds);
      GrownMore(st, [], st.pos, [], st.pos);
    } else {
      AllFirst(table, ds);
      var d, rest := ds[0], ds[1..];
      var pos' := st.pos + |SpelledText(d)|;
      AtSplit(s, st.pos, SpelledText(d), AllText(rest));
      ReadFirst(table, s, st, ds);
      if Fits(Meant(d)) {
        GrownState(st, [Meant(d)], pos');
        if EndsInText(rest) {
          assert pos' + |AllText(rest)| == st.pos + |AllText(ds)|;
        }
        ReadAll(table, s, Grown(st, [Meant(d)], pos'), rest);
        GrownMore(st, [Meant(d)], pos', AllMeant(rest), pos' + |AllText(rest)|);
      }
    }
  }

  /** The first of some children. */
  lemma {:induction false} ReadFirst(table: seq<Entity>, s: seq<byte>, st: State, ds: seq<Spelled>)
    requires LegalTable(table) && |ds| > 0 && AllSpelled(table, ds) && st.buffer == [] && st.keep && |st.open| > 0
    requires At(s, st.pos, AllText(ds)) && (EndsInText(ds) ==> At(s, st.pos + |AllText(ds)|, [LT]))
    ensures st.pos + |SpelledText(ds[0])| <= |s|
    ensures Run(table, s, st)
         == if Fits(Meant(ds[0])) then Run(table, s, Grown(st, [Meant(ds[0])], st.pos + |SpelledText(ds[0])|)) else BadDocument
    decreases ds, 0
  {
    hide *;
    AllFirst(table, ds);
    var d, rest := ds[0], ds[1..];
    var pos' := st.pos + |SpelledText(d)|;
    AtSplit(s, st.pos, SpelledText(d), AllText(rest));
    if !d.Chars? {
      ReadyInside(st);
      ReadElem(table, s, st, d);
      assert st.(pos := pos', keep := st.keep || d.Full?) == st.(pos := pos');
      PlacedGrows(st, Meant(d), pos');
    } else {
      if |rest| > 0 {
        ElemStarts(rest);
        AtSplit(s, pos', [LT], AllText(rest)[1..]);
      } else {
        AllNone(rest);
        EndsHere(ds);
      }
      CharsFacts(table, d);
      TextRead(table, s, st, d.signs);
    }
  }

  lemma ReadyInside(st: State)
    requires st.buffer == [] && st.keep && |st.open| > 0
    ensures Ready(st)
  {
  }

  lemma EndsHere(ds: seq<Spelled>)
    requires |ds| == 1 && ds[0].Chars?
    ensures EndsInText(ds)
  {
  }

  lemma CharsFacts(table: seq<Entity>, d: Spelled)
    requires d.Chars? && SpelledFine(table, d)
    ensures SpelledText(d) == SignsText(d.signs) && Meant(d) == Text(Said(d.signs)) && Fits(Meant(d))
    ensures |d.signs| > 0 && AllFine(table, InText, d.signs)
  {
  }

  // -------------------------------------------------------- documents

  const START: State := State(0, [], None, [], false)

  /** Text in front of the root is passed over. */
  lemma LeadRead(table: seq<Entity>, lead: seq<Sign>, rest: seq<byte>)
    requires LegalTable(table) && AllFine(table, InText, lead) && |rest| > 0 && rest[0] == LT
    ensures var s := SignsText(lead) + rest;
      && Load(table, s) == Run(table, s, START.(pos := |SignsText(lead)|))
      && At(s, |SignsText(lead)|, rest) && |SignsText(lead)| <= |s|
  {
    hide LegalTable, Run, SignsText, AllFine, At;
    var s := SignsText(lead) + rest;
    Whole(s);
    AtSplit(s, 0, SignsText(lead), rest);
    var buffer := OutsideRun(table, s, START, lead);
    assert rest == [LT] + rest[1..];
    AtSplit(s, |SignsText(lead)|, [LT], rest[1..]);
    FlushFirst(table, s, START.(pos := |SignsText(lead)|, buffer := buffer));
  }

  /**
    Loading a document in any spelling, with text in front of the root and behind it,
    gives the document spelled, or nothing where an element has two attributes of one name.
  */
  lemma LoadSpelled(table: seq<Entity>, lead: seq<Sign>, d: Spelled, trail: seq<Sign>)
    requires LegalTable(table) && SpelledFine(table, d) && !d.Chars? && AllFine(table, InText, lead) && AllFine(table, InText, trail)
    ensures Load(table, SignsText(lead) + (SpelledText(d) + SignsText(trail)))
         == if Fits(Meant(d)) then Document(Meant(d)) else BadDocument
  {
    hide LegalTable, Run, Load, SignsText, SpelledText, SpelledFine, AllFine, At, Meant, Fits;
    OneStarts(d);
    var rest := SpelledText(d) + SignsText(trail);
    var s := SignsText(lead) + rest;
    LeadRead(table, lead, rest);
    var at := START.(pos := |SignsText(lead)|);
    AtSplit(s, at.pos, SpelledText(d), SignsText(trail));
    ReadElem(table, s, at, d);
    if Fits(Meant(d)) {
      var st := at.(pos := at.pos + |SpelledText(d)|, keep := d.Full?, root := Some(Meant(d)));
      var buffer := OutsideRun(table, s, st, trail);
      RunEnds(table, s, st.(pos := |s|, buffer := buffer));
    }
  }

  lemma OneStarts(d: Spelled)
    requires !d.Chars?
    ensures |SpelledText(d)| > 0 && SpelledText(d)[0] == LT
  {
    hide RestText, SignsText;
  }

  /** A second root, or any other tag behind the root, ends the load. */
  lemma SecondRoot(table: seq<Entity>, lead: seq<Sign>, d: Spelled, between: seq<Sign>, tag: Tag, short: bool, after: seq<byte>)
    requires LegalTable(table) && SpelledFine(table, d) && !d.Chars? && AllFine(table, InText, lead) && AllFine(table, InText, between)
    requires TagFine(table, tag)
    ensures Load(table, SignsText(lead) + (SpelledText(d) + (SignsText(between) + (OpeningText(tag, short) + after)))) == BadDocument
  {
    hide LegalTable, Run, Load, SignsText, SpelledText, SpelledFine, AllFine, At, Meant, Fits, OpeningText, TagFine, Round, GetC;
    OneStarts(d);
    var more := SignsText(between) + (OpeningText(tag, short) + after);
    var s := SignsText(lead) + (SpelledText(d) + more);
    LeadRead(table, lead, SpelledText(d) + more);
    var at := START.(pos := |SignsText(lead)|);
    AtSplit(s, at.pos, SpelledText(d), more);
    ReadElem(table, s, at, d);
    if Fits(Meant(d)) {
      TagBehind(table, s, at.(pos := at.pos + |SpelledText(d)|, keep := d.Full?, root := Some(Meant(d))), between, tag, short, after);
    }
  }

  lemma TagBehind(table: seq<Entity>, s: seq<byte>, st: State, between: seq<Sign>, tag: Tag, short: bool, after: seq<byte>)
    requires LegalTable(table) && AllFine(table, InText, between) && TagFine(table, tag) && st.open == [] && st.root.Some?
    requires At(s, st.pos, SignsText(between) + (OpeningText(tag, short) + after))
    ensures st.pos <= |s| && Run(table, s, st) == BadDocument
  {
    hide LegalTable, Run, SignsText, AllFine, At, OpeningText, TagFine, Round, GetC;
    AtSplit(s, st.pos, SignsText(between), OpeningText(tag, short) + after);
    var buffer := OutsideRun(table, s, st, between);
    var st1 := st.(pos := st.pos + |SignsText(between)|, buffer := buffer);
    AtSplit(s, st1.pos, OpeningText(tag, short), after);
    TagStarts(tag, short);
    AtSplit(s, st1.pos, [LT], OpeningText(tag, short)[1..]);
    FlushFirst(table, s, st1);
    var st2 := st1.(buffer := []);
    OpenRound(table, s, st2, tag, short);
    RunStops(table, s, st2, BadDocument);
  }

  lemma TagStarts(tag: Tag, short: bool)
    ensures |OpeningText(tag, short)| > 0 && OpeningText(tag, short) == [LT] + OpeningText(tag, short)[1..]
  {
    hide RestText, SignsText;
  }

  // ----------------------------------------------- elements left open

  function PathOpen(path: seq<Level>): seq<Open> {
    if |path| == 0 then []
    else [Open(Said(path[0].tag.name), GivenAttrs(path[0].tag.attrs), AllMeant(path[0].kids))] + PathOpen(path[1..])
  }

  ghost predicate PathFits(path: seq<Level>) {
    forall i :: 0 <= i < |path| ==> DistinctNames(GivenAttrs(path[i].tag.attrs)) && AllFit(AllMeant(path[i].kids))
  }

  /** The text of the elements left open ends in opaque text. */
  ghost predicate PathInText(path: seq<Level>) {
    |path| > 0 && EndsInText(path[|path| - 1].kids)
  }

  lemma {:induction false} PathFirst(table: seq<Entity>, path: seq<Level>, open: seq<Open>)
    requires |path| > 0 && PathFine(table, path)
    ensures var l, more := path[0], path[1..];
      var o := Open(Said(l.tag.name), GivenAttrs(l.tag.attrs), AllMeant(l.kids));
      && PathText(path) == OpeningText(l.tag, false) + (AllText(l.kids) + PathText(more))
      && open + PathOpen(path) == open + [o] + PathOpen(more)
      && TagFine(table, l.tag) && AllSpelled(table, l.kids) && PathFine(table, more)
      && (PathFits(path) <==> DistinctNames(GivenAttrs(l.tag.attrs)) && AllFit(AllMeant(l.kids)) && PathFits(more))
      && (|more| > 0 ==> (PathInText(path) <==> PathInText(more)))
      && (|more| == 0 ==> PathText(more) == [] && (PathInText(path) <==> EndsInText(l.kids)))
  {
    hide DistinctNames, AllFit, AllMeant, GivenAttrs, TagFine, AllSpelled, EndsInText, OpeningText, AllText, Said;
    var l, more := path[0], path[1..];
    assert forall i :: 0 <= i < |more| ==> more[i] == path[i + 1];
    assert forall i :: 0 < i < |path| ==> path[i] == more[i - 1];
  }

  lemma PathStarts(path: seq<Level>)
    requires |path| > 0
    ensures |PathText(path)| > 0 && PathText(path) == [LT] + PathText(path)[1..]
  {
    hide OpeningText;
    TagStarts(path[0].tag, false);
  }

  /** Opening tags and complete children leave exactly those elements open. */
  lemma {:induction false} ReadPath(table: seq<Entity>, s: seq<byte>, st: State, path: seq<Level>)
    requires LegalTable(table) && PathFine(table, path) && Ready(st) && At(s, st.pos, PathText(path))
    requires PathInText(path) ==> At(s, st.pos + |PathText(path)|, [LT])
    ensures st.pos + |PathText(path)| <= |s|
    ensures Run(table, s, st)
         == if PathFits(path) then
              Run(table, s, st.(pos := st.pos + |PathText(path)|, open := st.open + PathOpen(path), keep := st.keep || path != []))
            else BadDocument
    decreases |path|
  {
    hide GetC, LegalTable, At, Run, Round, AllText, AllMeant, AllSpelled, AllFit, OpeningText, TagFine, PathText, PathOpen, PathFine, PathFits,
      PathInText, EndsInText, DistinctNames, Said, GivenAttrs, SpelledFine, Fits, Meant, SpelledText, GivenAllFine, RestText, SignsText;
    AtBound(s, st.pos, PathText(path));
    if |path| == 0 {
      PathNone(path);
      assert st.open + [] == st.open;
      assert st.(pos := st.pos, open := st.open, keep := st.keep) == st;
    } else {
      PathFirst(table, path, st.open);
      var l, more := path[0], path[1..];
      var opening, kids := OpeningText(l.tag, false), AllText(l.kids);
      AtSplit(s, st.pos, opening, kids + PathText(more));
      AtSplit(s, st.pos + |opening|, kids, PathText(more));
      OpenRound(table, s, st, l.tag, false);
      if !DistinctNames(GivenAttrs(l.tag.attrs)) {
        RunStops(table, s, st, BadDocument);
      } else {
        var st1 := AfterOpen(st, Said(l.tag.name), GivenAttrs(l.tag.attrs), false, st.pos + |opening|);
        RunGoes(table, s, st, st1);
        if |more| > 0 {
          PathStarts(more);
          AtSplit(s, st1.pos + |kids|, [LT], PathText(more)[1..]);
        }
        ReadAll(table, s, st1, l.kids);
        if AllFit(AllMeant(l.kids)) {
          var st2 := Grown(st1, AllMeant(l.kids), st1.pos + |kids|);
          var o := Open(Said(l.tag.name), GivenAttrs(l.tag.attrs), AllMeant(l.kids));
          assert [] + AllMeant(l.kids) == AllMeant(l.kids);
          assert st2 == st.(pos := st1.pos + |kids|, open := st.open + [o], keep := true);
          if |more| == 0 {
            PathNone(more);
          }
          assert st2.pos + |PathText(more)| == st.pos + |PathText(path)|;
          ReadPath(table, s, st2, more);
        }
      }
    }
  }

  lemma PathNone(path: seq<Level>)
    requires |path| == 0
    ensures PathText(path) == [] && PathOpen(path) == [] && PathFits(path) && !PathInText(path)
  {
  }

  /** What stands behind elements left open is read with those elements open, if the load has not ended before. */
  lemma {:induction false} PathLoad(table: seq<Entity>, lead: seq<Sign>, path: seq<Level>, rest: seq<byte>) returns (st: State)
    requires LegalTable(table) && AllFine(table, InText, lead) && PathFine(table, path)
    requires path == [] || PathInText(path) ==> |rest| > 0 && rest[0] == LT
    ensures var s := SignsText(lead) + (PathText(path) + rest);
      && At(s, st.pos, rest) && st.pos + |rest| == |s|
      && st == State(st.pos, PathOpen(path), None, [], path != [])
      && Load(table, s) == if PathFits(path) then Run(table, s, st) else BadDocument
  {
    hide LegalTable, Run, Load, SignsText, AllFine, At, PathText, PathOpen, PathFine, PathFits, PathInText, Said, TagFine, AllSpelled;
    var s := SignsText(lead) + (PathText(path) + rest);
    if path == [] {
      PathNone(path);
    } else {
      PathStarts(path);
    }
    LeadRead(table, lead, PathText(path) + rest);
    var at := START.(pos := |SignsText(lead)|);
    AtSplit(s, at.pos, PathText(path), rest);
    if PathInText(path) {
      assert rest == [LT] + rest[1..];
      AtSplit(s, at.pos + |PathText(path)|, [LT], rest[1..]);
    }
    ReadPath(table, s, at, path);
    st := at.(pos := at.pos + |PathText(path)|, open := PathOpen(path), keep := path != []);
    assert [] + PathOpen(path) == PathOpen(path);
  }

  /** A closing tag ends the load unless it has the name of the element last opened, whatever follows. */
  lemma {:induction false} Mismatched(table: seq<Entity>, lead: seq<Sign>, path: seq<Level>, xs: seq<Sign>, space: seq<byte>, after: seq<byte>)
    requires LegalTable(table) && AllFine(table, InText, lead) && PathFine(table, path)
    requires AllFine(table, InTag, xs) && White(space)
    requires |path| > 0 ==> Said(xs) != Said(path[|path| - 1].tag.name)
    ensures Load(table, SignsText(lead) + (PathText(path) + (ClosingText(xs, space) + after))) == BadDocument
  {
    hide LegalTable, Run, Load, SignsText, AllFine, At, PathText, PathOpen, PathFine, PathFits, PathInText, Round, GetC, ClosingText, White,
      Said;
    var close := ClosingText(xs, space);
    var s := SignsText(lead) + (PathText(path) + (close + after));
    LtFirst(xs, space);
    var st := PathLoad(table, lead, path, close + after);
    AtSplit(s, st.pos, close, after);
    PathLast(path);
    CloseRound(table, s, st, xs, space);
    RunStops(table, s, st, BadDocument);
  }

  lemma {:induction false} PathLast(path: seq<Level>)
    ensures |PathOpen(path)| == |path|
    ensures |path| > 0 ==> PathOpen(path)[|path| - 1].name == Said(path[|path| - 1].tag.name)
  {
    hide Said;
    if |path| > 0 {
      PathLast(path[1..]);
    }
  }

  /** An attribute without a value ends the load, whatever follows. */
  lemma ValueMissing(table: seq<Entity>, lead: seq<Sign>, path: seq<Level>, name: seq<Sign>, attrs: seq<Given>, a: Lone, after: seq<byte>)
    requires LegalTable(table) && AllFine(table, InText, lead) && PathFine(table, path)
    requires NameFine(table, name) && GivenAllFine(table, attrs, false) && LoneFine(table, a)
    requires a.gap == [] ==> attrs != [] && attrs[|attrs| - 1].value.Quoted?
    ensures var tag := [LT] + (SignsText(name) + (GivensText(attrs) + LoneText(a)));
      Load(table, SignsText(lead) + (PathText(path) + (tag + after))) == BadDocument
  {
    hide LegalTable, Run, Load, SignsText, AllFine, At, PathText, PathOpen, PathFine, PathFits, PathInText, Said, Round, GetC,
      LoneText, GivensText, GivenAllFine, LoneFine, NameFine;
    var tag := [LT] + (SignsText(name) + (GivensText(attrs) + LoneText(a)));
    var s := SignsText(lead) + (PathText(path) + (tag + after));
    var st := PathLoad(table, lead, path, tag + after);
    AtSplit(s, st.pos, tag, after);
    LoneRound(table, s, st, name, attrs, a);
    RunStops(table, s, st, BadDocument);
  }

  /** A character that no name holds, in the name of a tag, ends the load, whatever follows. */
  lemma NameRefused(table: seq<Entity>, lead: seq<Sign>, path: seq<Level>, name: seq<Sign>, c: int, after: seq<byte>)
    requires LegalTable(table) && AllFine(table, InText, lead) && PathFine(table, path)
    requires AllFine(table, InTag, name) && (name == [] || NameFine(table, name)) && Legal(c) && NoName(c)
    ensures Load(table, SignsText(lead) + (PathText(path) + ([LT] + (SignsText(name) + Encode(c)) + after))) == BadDocument
  {
    hide LegalTable, Run, Load, SignsText, AllFine, At, PathText, PathOpen, PathFine, PathFits, PathInText, Said, Round, GetC,
      NameFine, NoName, Encode;
    var tag := [LT] + (SignsText(name) + Encode(c));
    var s := SignsText(lead) + (PathText(path) + (tag + after));
    var st := PathLoad(table, lead, path, tag + after);
    AtSplit(s, st.pos, tag, after);
    NoNameRound(table, s, st, name, c);
    RunStops(table, s, st, BadDocument);
  }

  /** An entity the table does not have ends the load, whatever follows. */
  lemma UnknownEntity(table: seq<Entity>, lead: seq<Sign>, path: seq<Level>, xs: seq<Sign>, name: seq<byte>, after: seq<byte>)
    requires LegalTable(table) && AllFine(table, InText, lead) && PathFine(table, path) && |path| > 0 && !PathInText(path)
    requires AllFine(table, InText, xs) && Unknown(table, name)
    ensures Load(table, SignsText(lead) + (PathText(path) + (SignsText(xs) + ([AMP] + (name + [SEMICOLON]) + after)))) == BadDocument
  {
    hide LegalTable, Run, Load, SignsText, AllFine, At, PathText, PathOpen, PathFine, PathFits, PathInText, Said, Round, GetC, Unknown;
    var ref := [AMP] + (name + [SEMICOLON]);
    var rest := SignsText(xs) + (ref + after);
    var s := SignsText(lead) + (PathText(path) + rest);
    var st := PathLoad(table, lead, path, rest);
    AtSplit(s, st.pos, SignsText(xs), ref + after);
    TextRun(table, s, st, xs);
    var st' := st.(pos := st.pos + |SignsText(xs)|, buffer := st.buffer + Said(xs));
    AtSplit(s, st'.pos, ref, after);
    UnknownRound(table, s, st', name);
    RunStops(table, s, st', BadDocument);
  }

  ghost predicate Unknown(table: seq<Entity>, name: seq<byte>) {
    |name| <= 63 && (forall i :: 0 <= i < |name| ==> IsAlnum(name[i])) && forall i :: 0 <= i < |table| ==> table[i].name != name
  }

  lemma UnknownRound(table: seq<Entity>, s: seq<byte>, st: State, name: seq<byte>)
    requires LegalTable(table) && Unknown(table, name) && At(s, st.pos, [AMP] + (name + [SEMICOLON]))
    ensures st.pos < |s| && GetC(s, st.pos) == Got(AMP, st.pos + 1) && Round(table, s, st, AMP, st.pos + 1) == Stop(BadDocument)
  {
    hide GetC, LegalTable, At, EntityText, Markup, Encode;
    AsciiFirst(s, st.pos, AMP, name + [SEMICOLON]);
    EntityRead(s, st.pos + 1, name, []);
    assert [] + name == name;
  }

  /**
    Input that ends too early is no document; but where only the root is open, it is
    taken as closed, without the text it ends in.
  */
  lemma {:induction false} CutOff(table: seq<Entity>, lead: seq<Sign>, path: seq<Level>, trail: seq<Sign>)
    requires LegalTable(table) && AllFine(table, InText, lead) && AllFine(table, InText, trail)
    requires PathFine(table, path) && |path| > 0 && !PathInText(path)
    ensures Load(table, SignsText(lead) + (PathText(path) + SignsText(trail)))
         == if PathFits(path) && |path| == 1 then
              Document(Elem(Said(path[0].tag.name), GivenAttrs(path[0].tag.attrs), AllMeant(path[0].kids)))
            else BadDocument
  {
    hide LegalTable, Run, Load, SignsText, AllFine, At, PathText, PathOpen, PathFine, PathFits, PathInText, Round, GetC, Said, GivenAttrs, AllMeant;
    var s := SignsText(lead) + (PathText(path) + SignsText(trail));
    var st := PathLoad(table, lead, path, SignsText(trail));
    var buffer := OutsideRun(table, s, st, trail);
    PathLast(path);
    RunEnds(table, s, st.(pos := |s|, buffer := buffer));
    if |path| == 1 {
      PathOne(path);
    }
  }

  lemma {:induction false} PathOne(path: seq<Level>)
    requires |path| == 1
    ensures PathOpen(path) == [Open(Said(path[0].tag.name), GivenAttrs(path[0].tag.attrs), AllMeant(path[0].kids))]
  {
    hide Said, GivenAttrs, AllMeant;
    PathNone(path[1..]);
  }
}
