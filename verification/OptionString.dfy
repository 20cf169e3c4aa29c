/**
  The option string of getopt: the entries it lists, how they are written, and how
  `getopt_internal` reads them back.
*/
module OptionString {
  import opened Basics

  datatype HasArg = NoArgument | RequiredArgument | OptionalArgument

  /** Offset of the first `ch` (strchr); the length where there is none. */
  function IndexOf(s: string, ch: char): (k: nat)
    ensures k <= |s| && (k < |s| ==> s[k] == ch)
    ensures forall i :: 0 <= i < k ==> s[i] != ch
  {
    if s == "" then 0 else if s[0] == ch then 0 else 1 + IndexOf(s[1..], ch)
  }

  function CharAt(s: string, k: nat): Option<char> {
    if k < |s| then Some(s[k]) else None
  }

  /** A listed option character that takes an argument, and one for which it is optional. */
  predicate TakesArg(options: string, ch: char) {
    CharAt(options, IndexOf(options, ch) + 1) == Some(':')
  }

  predicate ArgOptional(options: string, ch: char) {
    CharAt(options, IndexOf(options, ch) + 2) == Some(':')
  }

  // ------------------------------------------------------ the entries

  datatype Entry = Entry(ch: char, arg: HasArg)

  /** An entry is written as its character and a colon for an argument, two for an optional one. */
  function EntryText(e: Entry): string {
    [e.ch] + match e.arg
      case NoArgument => ""
      case RequiredArgument => ":"
      case OptionalArgument => "::"
  }

  function EntriesText(es: seq<Entry>): string {
    if |es| == 0 then "" else EntryText(es[0]) + EntriesText(es[1..])
  }

  /** The option string; a leading colon asks for silence. */
  function Written(silent: bool, es: seq<Entry>): string {
    (if silent then ":" else "") + EntriesText(es)
  }

  ghost predicate Distinct(es: seq<Entry>) {
    && (forall i :: 0 <= i < |es| ==> es[i].ch != ':')
    && (forall i, j :: 0 <= i < j < |es| ==> es[i].ch != es[j].ch)
  }

  predicate Lists(es: seq<Entry>, ch: char) {
    exists k :: 0 <= k < |es| && es[k].ch == ch
  }

  /** Where the text of the entries from `k` on starts. */
  function Offset(es: seq<Entry>, k: nat): nat
    requires k <= |es|
  {
    if k == 0 then 0 else |EntryText(es[0])| + Offset(es[1..], k - 1)
  }

  lemma {:induction false} EntryAt(es: seq<Entry>, k: nat)
    requires k < |es|
    ensures var s, o := EntriesText(es), Offset(es, k); o <= |s| && s[o..] == EntryText(es[k]) + EntriesText(es[k + 1..])
  {
    if k > 0 {
      EntryAt(es[1..], k - 1);
      var s, e := EntriesText(es), EntryText(es[0]);
      assert es[1..][k - 1] == es[k] && es[1..][k..] == es[k + 1..];
      assert s[Offset(es, k)..] == EntriesText(es[1..])[Offset(es[1..], k - 1)..];
    }
  }

  /** The characters of the string are the colons and those of the entries. */
  lemma {:induction false} Listed(es: seq<Entry>, ch: char)
    requires ch != ':'
    ensures ch in EntriesText(es) <==> Lists(es, ch)
  {
    if |es| > 0 {
      Listed(es[1..], ch);
      assert EntriesText(es) == EntryText(es[0]) + EntriesText(es[1..]);
      assert ch in EntryText(es[0]) <==> ch == es[0].ch;
      if Lists(es[1..], ch) {
        var k :| 0 <= k < |es[1..]| && es[1..][k].ch == ch;
        assert es[k + 1].ch == ch;
      }
      if Lists(es, ch) && es[0].ch != ch {
        var k :| 0 <= k < |es| && es[k].ch == ch;
        assert es[1..][k - 1].ch == ch;
      }
    }
  }

  /** The first place of an entry's character is where the entry is written. */
  lemma {:induction false} FoundAt(es: seq<Entry>, k: nat)
    requires Distinct(es) && k < |es|
    ensures IndexOf(EntriesText(es), es[k].ch) == Offset(es, k)
  {
    var s, e := EntriesText(es), EntryText(es[0]);
    if k > 0 {
      FoundAt(es[1..], k - 1);
      assert es[1..][k - 1] == es[k];
      assert forall i :: 0 <= i < |e| ==> e[i] != es[k].ch;
      FirstBehind(e, EntriesText(es[1..]), es[k].ch);
    }
  }

  lemma {:induction false} FirstBehind(a: string, b: string, ch: char)
    requires ch !in a
    ensures IndexOf(a + b, ch) == |a| + IndexOf(b, ch)
  {
    if a == "" {
      assert a + b == b;
    } else {
      assert (a + b)[1..] == a[1..] + b;
      FirstBehind(a[1..], b, ch);
    }
  }

  lemma ReadBack(w: string, at: nat, e: Entry, rest: string)
    requires at <= |w| && w[at..] == EntryText(e) + rest && CharAt(rest, 0) != Some(':')
    requires at == IndexOf(w, e.ch)
    ensures e.ch in w && (TakesArg(w, e.ch) <==> e.arg != NoArgument)
    ensures TakesArg(w, e.ch) ==> (ArgOptional(w, e.ch) <==> e.arg == OptionalArgument)
  {
    hide IndexOf;
    var u := EntryText(e) + rest;
    assert u[0] == w[at];
    assert CharAt(u, 1) == CharAt(w, at + 1);
    assert CharAt(u, 2) == CharAt(w, at + 2);
  }

  /** What reading the option string back tells of an entry. */
  lemma EntryMeans(silent: bool, es: seq<Entry>, k: nat)
    requires Distinct(es) && k < |es|
    ensures var s, e := Written(silent, es), es[k];
      && e.ch in s
      && (TakesArg(s, e.ch) <==> e.arg != NoArgument)
      && (TakesArg(s, e.ch) ==> (ArgOptional(s, e.ch) <==> e.arg == OptionalArgument))
  {
    hide EntryText, EntriesText, TakesArg, ArgOptional, Offset, IndexOf;
    var s, pre, w := EntriesText(es), if silent then ":" else "", Written(silent, es);
    var at := |pre| + Offset(es, k);
    FoundAt(es, k);
    FirstBehind(pre, s, es[k].ch);
    EntryAt(es, k);
    assert w[at..] == s[Offset(es, k)..];
    NextStart(es, k + 1);
    ReadBack(w, at, es[k], EntriesText(es[k + 1..]));
  }

  /** Behind an entry comes the character of the next, which is no colon, or nothing. */
  lemma NextStart(es: seq<Entry>, k: nat)
    requires Distinct(es) && k <= |es|
    ensures CharAt(EntriesText(es[k..]), 0) != Some(':')
  {
  }

  /** Which characters are listed. */
  lemma ListMeans(silent: bool, es: seq<Entry>, ch: char)
    requires ch != ':'
    ensures ch in Written(silent, es) <==> Lists(es, ch)
  {
    Listed(es, ch);
    var pre := if silent then ":" else "";
    assert ch !in pre;
  }

  /** The string is that of distinct entries, and `Entry(ch, arg)` is one of them. */
  ghost predicate ListsAs(options: string, ch: char, arg: HasArg) {
    exists silent: bool, es: seq<Entry> :: Distinct(es) && options == Written(silent, es) && Entry(ch, arg) in es
  }

  lemma ListsAsMeans(options: string, ch: char, arg: HasArg)
    requires ListsAs(options, ch, arg)
    ensures ch != ':' && ch in options && (TakesArg(options, ch) <==> arg != NoArgument)
    ensures TakesArg(options, ch) ==> (ArgOptional(options, ch) <==> arg == OptionalArgument)
  {
    hide Written, TakesArg, ArgOptional;
    var silent: bool, es: seq<Entry> :| Distinct(es) && options == Written(silent, es) && Entry(ch, arg) in es;
    var k :| 0 <= k < |es| && es[k] == Entry(ch, arg);
    EntryMeans(silent, es, k);
  }
}
