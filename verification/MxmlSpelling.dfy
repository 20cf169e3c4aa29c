/**
  The spellings of a document: quotes of either kind or none, white space in tags,
  entities for any character, short and full tags, and the document each spells.
*/
module MxmlSpelling {
  import opened Basics
  import opened MxmlAttr
  import opened MxmlEntity
  import opened MxmlLoad
  import opened MxmlTree
  import opened MxmlUtf8

  type Char = c: int | 1 <= c <= 0x1F_FFFF && Legal(c) witness 10

  /** A character as it is, or by the name of an entity. */
  datatype Sign = Raw(c: Char) | Ref(name: seq<byte>, c: Char)

  /** The value of an attribute in quotes, or without, where it needs a first character. */
  datatype Value = Quoted(quote: byte, signs: seq<Sign>) | Bare(first: Char, signs: seq<Sign>)

  /** White space, a name, white space on either side of `=`, and a value. */
  datatype Given = Given(gap: seq<byte>, first: Char, more: seq<Sign>, before: seq<byte>, after: seq<byte>, value: Value)

  /** What stands between `<` and `>` or `/>`. */
  datatype Tag = Tag(name: seq<Sign>, attrs: seq<Given>, end: seq<byte>)

  datatype Spelled =
    | Short(tag: Tag)
    | Full(tag: Tag, kids: seq<Spelled>, closing: seq<Sign>, space: seq<byte>)
    | Chars(signs: seq<Sign>)

  // -------------------------------------------------------- the text

  function SignText(x: Sign): seq<byte> {
    match x
    case Raw(c) => Encode(c)
    case Ref(name, _) => [AMP] + (name + [SEMICOLON])
  }

  function SignsText(xs: seq<Sign>): seq<byte> {
    if |xs| == 0 then [] else SignText(xs[0]) + SignsText(xs[1..])
  }

  function ValuesText(v: Value): seq<byte> {
    match v
    case Quoted(quote, xs) => [quote] + (SignsText(xs) + [quote])
    case Bare(first, xs) => Encode(first) + SignsText(xs)
  }

  function GivenText(a: Given): seq<byte> {
    Encode(a.first) + (SignsText(a.more) + (a.before + ([EQUALS] + (a.after + ValuesText(a.value)))))
  }

  function GivensText(attrs: seq<Given>): seq<byte> {
    if |attrs| == 0 then [] else attrs[0].gap + (GivenText(attrs[0]) + GivensText(attrs[1..]))
  }

  /** The attributes of a tag, and its end. */
  function RestText(attrs: seq<Given>, end: seq<byte>, short: bool): seq<byte> {
    GivensText(attrs) + (end + if short then [SLASH, GT] else [GT])
  }

  function OpeningText(tag: Tag, short: bool): seq<byte> {
    [LT] + (SignsText(tag.name) + RestText(tag.attrs, tag.end, short))
  }

  function ClosingText(name: seq<Sign>, space: seq<byte>): seq<byte> {
    [LT] + ([SLASH] + (SignsText(name) + (space + [GT])))
  }

  function SpelledText(d: Spelled): seq<byte>
    decreases d, 0
  {
    match d
    case Short(tag) => OpeningText(tag, true)
    case Full(tag, kids, closing, space) => OpeningText(tag, false) + (AllText(kids) + ClosingText(closing, space))
    case Chars(xs) => SignsText(xs)
  }

  function AllText(ds: seq<Spelled>): seq<byte>
    decreases ds, 1
  {
    if |ds| == 0 then [] else SpelledText(ds[0]) + AllText(ds[1..])
  }

  // ----------------------------------------------------- the document

  function Said(xs: seq<Sign>): seq<byte> {
    if |xs| == 0 then [] else Encode(xs[0].c) + Said(xs[1..])
  }

  /** Of the first character of an attribute's name, and of a value without quotes, only the low byte is kept. */
  function LowFirst(first: Char, more: seq<Sign>): seq<byte> {
    CStr([first % 256] + Said(more))
  }

  function GivenAttr(a: Given): Attr {
    Attr(LowFirst(a.first, a.more), Some(if a.value.Quoted? then Said(a.value.signs) else LowFirst(a.value.first, a.value.signs)))
  }

  function GivenAttrs(attrs: seq<Given>): seq<Attr> {
    if |attrs| == 0 then [] else [GivenAttr(attrs[0])] + GivenAttrs(attrs[1..])
  }

  function Meant(d: Spelled): Tree
    decreases d, 0
  {
    match d
    case Short(tag) => Elem(Said(tag.name), GivenAttrs(tag.attrs), [])
    case Full(tag, kids, _, _) => Elem(Said(tag.name), GivenAttrs(tag.attrs), AllMeant(kids))
    case Chars(xs) => Text(Said(xs))
  }

  function AllMeant(ds: seq<Spelled>): seq<Tree>
    decreases ds, 1
  {
    if |ds| == 0 then [] else [Meant(ds[0])] + AllMeant(ds[1..])
  }

  /** No element has two attributes of one name. */
  ghost predicate Fits(t: Tree)
    decreases t, 0
  {
    t.Elem? ==> DistinctNames(t.attrs) && AllFit(t.kids)
  }

  ghost predicate AllFit(ts: seq<Tree>)
    decreases ts, 1
  {
    |ts| > 0 ==> Fits(ts[0]) && AllFit(ts[1..])
  }

  // ------------------------------------------------- proper spellings

  /** Where characters stand. */
  datatype Place = InTag | InAttrName | InQuotes(quote: byte) | InBare | InText

  /** Where a character may stand as it is. */
  predicate Plain(p: Place, c: Char) {
    match p
    case InTag => (c >= 48 && c != LT && c != GT) || c == BANG || c == 45 || c == 46
    case InAttrName => c != AMP && !WordStops(c, true)
    case InQuotes(quote) => c != AMP && c != quote
    case InBare => c != AMP && !WordStops(c, false)
    case InText => c != AMP && c != LT
  }

  /** What neither belongs to the name of a tag nor ends it. */
  predicate NoName(c: int) {
    c == LT || (c < 48 && !IsSpace(c) && c !in {BANG as int, 45, 46, SLASH, AMP})
  }

  /** A name of letters and digits that the table leads to the character. */
  ghost predicate Names(table: seq<Entity>, name: seq<byte>, c: int) {
    && 0 < |name| <= 63 && (forall i :: 0 <= i < |name| ==> IsAlnum(name[i]))
    && LookUp(table, name) == Some(c)
  }

  ghost predicate Fine(table: seq<Entity>, p: Place, x: Sign) {
    if x.Raw? then Plain(p, x.c) else Names(table, x.name, x.c)
  }

  ghost predicate AllFine(table: seq<Entity>, p: Place, xs: seq<Sign>) {
    forall i :: 0 <= i < |xs| ==> Fine(table, p, xs[i])
  }

  predicate White(w: seq<byte>) {
    forall i :: 0 <= i < |w| ==> IsSpace(w[i])
  }

  predicate IsQuote(c: int) {
    c == QUOT || c == APOS
  }

  ghost predicate ValueFine(table: seq<Entity>, v: Value) {
    match v
    case Quoted(quote, xs) => IsQuote(quote) && AllFine(table, InQuotes(quote), xs)
    case Bare(first, xs) => !IsSpace(first) && !IsQuote(first) && AllFine(table, InBare, xs)
  }

  predicate StartsName(c: int) {
    !IsSpace(c) && !IsQuote(c) && c != SLASH && c != QUESTION && c != LT && c != GT
  }

  ghost predicate GivenFine(table: seq<Entity>, a: Given) {
    && StartsName(a.first) && AllFine(table, InAttrName, a.more)
    && White(a.gap) && White(a.before) && White(a.after) && ValueFine(table, a.value)
  }

  /** Only behind a quote can an attribute follow at once. */
  ghost predicate GivenAllFine(table: seq<Entity>, attrs: seq<Given>, quoted: bool) {
    |attrs| > 0 ==>
      && GivenFine(table, attrs[0]) && (attrs[0].gap == [] ==> quoted)
      && GivenAllFine(table, attrs[1..], attrs[0].value.Quoted?)
  }

  ghost predicate NameFine(table: seq<Entity>, xs: seq<Sign>) {
    && |xs| > 0 && AllFine(table, InTag, xs)
    && xs[0].c != BANG && xs[0].c != QUESTION && xs[0].c != SLASH
  }

  ghost predicate TagFine(table: seq<Entity>, tag: Tag) {
    NameFine(table, tag.name) && GivenAllFine(table, tag.attrs, false) && White(tag.end)
  }

  ghost predicate SpelledFine(table: seq<Entity>, d: Spelled)
    decreases d, 0
  {
    match d
    case Short(tag) => TagFine(table, tag)
    case Full(tag, kids, closing, space) =>
      && TagFine(table, tag) && AllSpelled(table, kids)
      && AllFine(table, InTag, closing) && Said(closing) == Said(tag.name) && White(space)
    case Chars(xs) => |xs| > 0 && AllFine(table, InText, xs)
  }

  /** No two texts stand next to each other. */
  ghost predicate AllSpelled(table: seq<Entity>, ds: seq<Spelled>)
    decreases ds, 1
  {
    |ds| > 0 ==>
      SpelledFine(table, ds[0]) && AllSpelled(table, ds[1..]) && !(|ds| > 1 && ds[0].Chars? && ds[1].Chars?)
  }

  /** An attribute without a value, and the character that shows it has none. */
  datatype Lone = Lone(gap: seq<byte>, first: Char, more: seq<Sign>, before: seq<byte>, stop: byte)

  function LoneText(a: Lone): seq<byte> {
    a.gap + (Encode(a.first) + (SignsText(a.more) + (a.before + [a.stop])))
  }

  ghost predicate LoneFine(table: seq<Entity>, a: Lone) {
    && StartsName(a.first) && AllFine(table, InAttrName, a.more) && White(a.gap) && White(a.before)
    && Legal(a.stop) && a.stop < 0x80 && !IsSpace(a.stop) && a.stop != EQUALS && (a.before == [] ==> WordStops(a.stop, true))
  }

  /** What has been opened and not closed: opening tags from the root on, each with complete children behind it. */
  datatype Level = Level(tag: Tag, kids: seq<Spelled>)

  function PathText(path: seq<Level>): seq<byte> {
    if |path| == 0 then [] else OpeningText(path[0].tag, false) + (AllText(path[0].kids) + PathText(path[1..]))
  }

  ghost predicate PathFine(table: seq<Entity>, path: seq<Level>) {
    forall i :: 0 <= i < |path| ==> TagFine(table, path[i].tag) && AllSpelled(table, path[i].kids)
  }
}
