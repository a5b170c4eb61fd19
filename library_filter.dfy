/**
 * The level filter of the library: whether a book's stored level (one level such as
 * "B1", or a range such as "A2 - B1") covers the level chosen in the filter, and the
 * query-string update made when the chosen level changes.
 */
module LibraryFilter {
  import opened Wrappers
  import opened Strings
  import Cefr
  import opened Seqs

  /** `charCodeAt(0)` of a string starting with `c`: UTF-16 gives the high surrogate of an astral character. */
  function FirstCodeUnit(c: char): (u: int)
    ensures 0 <= u < 0x10000
    ensures c as int < 0x10000 ==> u == c as int
    ensures c as int >= 0x10000 ==> 0xD800 <= u < 0xDC00
  {
    if c as int < 0x10000 then c as int else 0xD800 + (c as int - 0x10000) / 0x400
  }

  /**
   * The numeric value of a level: twice the distance of its first letter from 'A', plus one
   * when its second UTF-16 unit is '2'. The empty string has no first unit, and the
   * arithmetic then yields NaN, written here as `None`.
   */
  function LevelToNumber(level: string): (r: Option<int>)
    ensures r.None? <==> level == []
    ensures Cefr.IsLevel(level) ==> r == Some(Cefr.Rank(level))
  {
    if level == [] then None
    else
      var base := FirstCodeUnit(level[0]) - 'A' as int;
      // an astral first character occupies two UTF-16 units; the second one is a low surrogate, never '2'
      var secondIsTwo := level[0] as int < 0x10000 && |level| >= 2 && level[1] == '2';
      Some(base * 2 + if secondIsTwo then 1 else 0)
  }

  /** `lo <= n && n <= hi` on numbers that may be NaN: every comparison with NaN is false. */
  predicate Between(n: Option<int>, lo: Option<int>, hi: Option<int>) {
    n.Some? && lo.Some? && hi.Some? && lo.value <= n.value <= hi.value
  }

  /** Whether the stored level `bookLevel` covers `filterLevel`. */
  function IsInRange(bookLevel: string, filterLevel: string): (r: bool)
    ensures filterLevel == "all" ==> r
    ensures filterLevel != "all" && '-' !in bookLevel ==> (r <==> bookLevel == filterLevel)
  {
    if filterLevel == "all" then true
    else if '-' !in bookLevel then bookLevel == filterLevel
    else
      // `split('-')` yields at least two pieces here; only the first two are used
      var parts := Split(bookLevel, '-');
      Between(LevelToNumber(filterLevel), LevelToNumber(Trim(parts[0])), LevelToNumber(Trim(parts[1])))
  }

  lemma NoHyphenInSpace(a: string)
    requires AllSpace(a)
    ensures '-' !in a
  {
  }

  /**
   * A range "x-y" whose endpoints may be padded with white space compares the filter's
   * number with the numbers of the trimmed endpoints.
   */
  lemma RangeCompares(a: string, x: string, b: string, c: string, y: string, d: string, f: string)
    requires AllSpace(a) && AllSpace(b) && AllSpace(c) && AllSpace(d)
    requires Trimmed(x) && Trimmed(y) && '-' !in x && '-' !in y
    requires f != "all"
    ensures IsInRange(a + x + b + "-" + c + y + d, f) <==> Between(LevelToNumber(f), LevelToNumber(x), LevelToNumber(y))
  {
    NoHyphenInSpace(a);
    NoHyphenInSpace(b);
    NoHyphenInSpace(c);
    NoHyphenInSpace(d);
    var head := a + x + b;
    var tail := c + y + d;
    assert '-' !in head;
    assert '-' !in tail;
    var s := a + x + b + "-" + c + y + d;
    assert s == head + ['-'] + tail;
    SplitAfterHead(head, '-', tail);
    assert Split(s, '-') == [head, tail];
    TrimPadded(a, x, b);
    TrimPadded(c, y, d);
  }

  /** A range of two CEFR levels covers exactly the CEFR levels between them, both included. */
  lemma CefrRange(a: string, x: string, b: string, c: string, y: string, d: string, f: string)
    requires AllSpace(a) && AllSpace(b) && AllSpace(c) && AllSpace(d)
    requires Cefr.IsLevel(x) && Cefr.IsLevel(y) && Cefr.IsLevel(f)
    ensures IsInRange(a + x + b + "-" + c + y + d, f) <==> Cefr.Rank(x) <= Cefr.Rank(f) <= Cefr.Rank(y)
  {
    RangeCompares(a, x, b, c, y, d, f);
  }

  /** A range whose start lies above its end covers no level at all, apart from the 'all' choice. */
  lemma ReversedRangeMatchesNothing(a: string, x: string, b: string, c: string, y: string, d: string, f: string)
    requires AllSpace(a) && AllSpace(b) && AllSpace(c) && AllSpace(d)
    requires Cefr.IsLevel(x) && Cefr.IsLevel(y) && Cefr.Rank(y) < Cefr.Rank(x)
    requires f != "all"
    ensures !IsInRange(a + x + b + "-" + c + y + d, f)
  {
    RangeCompares(a, x, b, c, y, d, f);
  }

  /** A range with a blank end, such as "B1-", covers nothing apart from the 'all' choice. */
  lemma BlankEndMatchesNothing(a: string, x: string, b: string, c: string, f: string)
    requires AllSpace(a) && AllSpace(b) && AllSpace(c)
    requires Trimmed(x) && '-' !in x
    requires f != "all"
    ensures !IsInRange(a + x + b + "-" + c, f)
  {
    assert a + x + b + "-" + c == a + x + b + "-" + c + "" + "";
    RangeCompares(a, x, b, c, "", "", f);
  }

  /** A range with a blank start, such as "-B1", covers nothing apart from the 'all' choice. */
  lemma BlankStartMatchesNothing(a: string, c: string, y: string, d: string, f: string)
    requires AllSpace(a) && AllSpace(c) && AllSpace(d)
    requires Trimmed(y) && '-' !in y
    requires f != "all"
    ensures !IsInRange(a + "-" + c + y + d, f)
  {
    assert a + "-" + c + y + d == a + "" + "" + "-" + c + y + d;
    RangeCompares(a, "", "", c, y, d, f);
  }

  /** "B2-C1" covers B2 and C1 but not C2. */
  lemma NarrowRangeExample(book: string, b2: string, c1: string, c2: string)
    requires b2 == "B2" && c1 == "C1" && c2 == "C2" && book == b2 + "-" + c1
    ensures IsInRange(book, b2) && IsInRange(book, c1) && !IsInRange(book, c2)
  {
    assert book == "" + b2 + "" + "-" + "" + c1 + "";
    assert Cefr.Rank(b2) == 3 && Cefr.Rank(c1) == 4 && Cefr.Rank(c2) == 5;
    CefrRange("", b2, "", "", c1, "", b2);
    CefrRange("", b2, "", "", c1, "", c1);
    CefrRange("", b2, "", "", c1, "", c2);
  }

  /** The blanks around the hyphen of "A2 - B1" are trimmed away. */
  lemma PaddedRangeExample(book: string, a2: string, b1: string, b2: string)
    requires a2 == "A2" && b1 == "B1" && b2 == "B2" && book == a2 + " - " + b1
    ensures IsInRange(book, a2) && IsInRange(book, b1) && !IsInRange(book, b2)
  {
    assert book == "" + a2 + " " + "-" + " " + b1 + "";
    assert Cefr.Rank(a2) == 1 && Cefr.Rank(b1) == 2 && Cefr.Rank(b2) == 3;
    CefrRange("", a2, " ", " ", b1, "", a2);
    CefrRange("", a2, " ", " ", b1, "", b1);
    CefrRange("", a2, " ", " ", b1, "", b2);
  }

  /** One entry of a query string. */
  datatype Param = Param(name: string, value: string)

  /** `URLSearchParams.delete(name)`: every entry with that name goes, the rest keep their order. */
  function Deleted(ps: seq<Param>, name: string): (r: seq<Param>)
    ensures forall p :: p in r <==> p in ps && p.name != name
    ensures |r| <= |ps|
    ensures r == Filter(ps, NamedOther(name)) && IsSubsequence(r, ps)
  {
    FilterIsSubsequence(ps, NamedOther(name));
    if ps == [] then []
    else if ps[0].name == name then Deleted(ps[1..], name)
    else [ps[0]] + Deleted(ps[1..], name)
  }

  function NamedOther(name: string): Param -> bool {
    (p: Param) => p.name != name
  }

  /** The entries named `name`, in order. */
  function Named(ps: seq<Param>, name: string): (r: seq<Param>)
    ensures forall p :: p in r <==> p in ps && p.name == name
  {
    if ps == [] then []
    else if ps[0].name == name then [ps[0]] + Named(ps[1..], name)
    else Named(ps[1..], name)
  }

  /** `URLSearchParams.get(name)`: the value of the first entry with that name. */
  function Get(ps: seq<Param>, name: string): (r: Option<string>)
    ensures r.None? <==> Named(ps, name) == []
    ensures r.Some? ==> r.value == Named(ps, name)[0].value
  {
    if ps == [] then None
    else if ps[0].name == name then Some(ps[0].value)
    else Get(ps[1..], name)
  }

  /**
   * `URLSearchParams.set(name, value)`: the first entry with that name takes the value and
   * the later ones go; with no such entry, a new one is appended.
   */
  function WithSet(ps: seq<Param>, name: string, value: string): (r: seq<Param>)
    ensures Named(r, name) == [Param(name, value)]
    ensures Deleted(r, name) == Deleted(ps, name)
  {
    if ps == [] then [Param(name, value)]
    else if ps[0].name == name then
      NamedOfDeleted(ps[1..], name);
      DeletedTwice(ps[1..], name);
      [Param(name, value)] + Deleted(ps[1..], name)
    else [ps[0]] + WithSet(ps[1..], name, value)
  }

  lemma NamedOfDeleted(ps: seq<Param>, name: string)
    ensures Named(Deleted(ps, name), name) == []
  {
  }

  /** The level shown by the filter: the `level` entry, or 'all' when it is missing or empty. */
  function CurrentLevel(ps: seq<Param>): (r: string)
    ensures r != []
    ensures Named(ps, "level") != [] && Named(ps, "level")[0].value != [] ==> r == Named(ps, "level")[0].value
    ensures Named(ps, "level") == [] || Named(ps, "level")[0].value == [] ==> r == "all"
  {
    match Get(ps, "level")
    case Some(v) => if v == [] then "all" else v
    case None => "all"
  }

  /** The query after choosing `level`: 'all' drops the `level` entry, any other choice sets it. */
  function LevelQuery(ps: seq<Param>, level: string): (r: seq<Param>)
    ensures Deleted(r, "level") == Deleted(ps, "level")
    ensures level == "all" ==> Named(r, "level") == []
    ensures level != "all" ==> Named(r, "level") == [Param("level", level)]
  {
    if level == "all" then
      NamedOfDeleted(ps, "level");
      DeletedTwice(ps, "level");
      Deleted(ps, "level")
    else WithSet(ps, "level", level)
  }

  lemma {:induction false} DeletedTwice(ps: seq<Param>, name: string)
    ensures Deleted(Deleted(ps, name), name) == Deleted(ps, name)
  {
    if ps != [] {
      DeletedTwice(ps[1..], name);
    }
  }

  /** After choosing a non-empty level, the filter shows that level. */
  lemma {:induction false} ChoiceIsShown(ps: seq<Param>, level: string)
    requires level != []
    ensures CurrentLevel(LevelQuery(ps, level)) == level
  {
  }

  /** A query string held by the browser, updated in place by `delete` and `set`. */
  class SearchParams {
    var entries: seq<Param>

    constructor(init: seq<Param>)
      ensures entries == init
    {
      entries := init;
    }

    method Delete(name: string)
      modifies this
      ensures entries == Deleted(old(entries), name)
    {
      entries := Deleted(entries, name);
    }

    method Set(name: string, value: string)
      modifies this
      ensures entries == WithSet(old(entries), name, value)
    {
      entries := WithSet(entries, name, value);
    }
  }

  /** Where the router is sent. */
  datatype Navigation = Navigation(path: string, query: seq<Param>)

  /** The level change handler: a copy of the current query is updated, then the router goes to it. */
  method HandleLevelChange(current: seq<Param>, level: string) returns (nav: Navigation)
    ensures nav.path == "/library"
    ensures nav.query == LevelQuery(current, level)
  {
    var params := new SearchParams(current);
    if level == "all" {
      params.Delete("level");
    } else {
      params.Set("level", level);
    }
    nav := Navigation("/library", params.entries);
  }
}
