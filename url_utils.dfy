/**
 * Slugs for book URLs: a chain of rewrites that lowercases a title, turns runs of white
 * space into hyphens, drops punctuation and tidies the hyphens; and the book page path
 * built from two slugs and the book's id.
 */
module UrlUtils {
  import opened Strings
  import Seqs

  /** The characters a slug may contain. */
  predicate IsSlugChar(c: char) {
    IsAsciiLower(c) || IsDigit(c) || c == '_' || c == '-'
  }

  /** The characters that survive `replace(/[^\w\-]+/g, '')`. */
  predicate IsKept(c: char) {
    IsWordChar(c) || c == '-'
  }

  predicate NoDoubleHyphen(s: string) {
    forall i :: 0 <= i < |s| - 1 ==> !(s[i] == '-' && s[i + 1] == '-')
  }

  /** What every slug looks like. */
  predicate IsSlug(s: string) {
    (forall i :: 0 <= i < |s| ==> IsSlugChar(s[i]))
    && (s == [] || (s[0] != '-' && s[|s| - 1] != '-'))
    && NoDoubleHyphen(s)
  }

  /** `replace(/\s+/g, '-')`: every maximal run of white space becomes one hyphen. */
  function HyphenateSpaces(s: string): (r: string)
    ensures NoSpace(r)
    ensures forall i :: 0 <= i < |r| ==> r[i] == '-' || r[i] in s
    ensures NoSpace(s) ==> r == s
  {
    HyphenateShape(s, false);
    HyphenateSpaceless(s, false);
    HyphenateRuns(s, false)
  }

  /** Hyphenates the white-space runs of `s`; `inRun` says a run has just been replaced. */
  function HyphenateRuns(s: string, inRun: bool): string {
    if s == [] then []
    else if IsSpace(s[0]) then (if inRun then [] else "-") + HyphenateRuns(s[1..], true)
    else [s[0]] + HyphenateRuns(s[1..], false)
  }

  /** `replace(/[^\w\-]+/g, '')`: every character other than a word character or a hyphen goes. */
  function DropNonWord(s: string): (r: string)
    ensures forall i :: 0 <= i < |r| ==> IsKept(r[i])
    ensures forall c :: c in r ==> c in s
    ensures (forall i :: 0 <= i < |s| ==> IsKept(s[i])) ==> r == s
  {
    Seqs.FilterKeepsAllWhen(s, IsKept);
    Seqs.Filter(s, IsKept)
  }

  /** `replace(/^-+/, '')`. */
  function TrimLeadingHyphens(s: string): (r: string)
    ensures |r| <= |s| && r == s[|s| - |r|..]
    ensures r == [] || r[0] != '-'
    ensures (s == [] || s[0] != '-') ==> r == s
    ensures forall i :: 0 <= i < |s| - |r| ==> s[i] == '-'
  {
    if s != [] && s[0] == '-' then TrimLeadingHyphens(s[1..]) else s
  }

  /** `replace(/-+$/, '')`. */
  function TrimTrailingHyphens(s: string): (r: string)
    ensures |r| <= |s| && r == s[..|r|]
    ensures r == [] || r[|r| - 1] != '-'
    ensures (s == [] || s[|s| - 1] != '-') ==> r == s
    ensures forall i :: |r| <= i < |s| ==> s[i] == '-'
  {
    if s != [] && s[|s| - 1] == '-' then TrimTrailingHyphens(s[..|s| - 1]) else s
  }

  /** `replace(/\-\-+/g, '-')`: every run of two or more hyphens becomes one. */
  function CollapseHyphens(s: string): (r: string)
    ensures NoDoubleHyphen(r)
    ensures forall i :: 0 <= i < |r| ==> r[i] in s
    ensures NoDoubleHyphen(s) ==> r == s
  {
    CollapseShape(s, false);
    CollapseFixed(s, false);
    CollapseRuns(s, false)
  }

  /** Collapses the hyphen runs of `s`; `inRun` says a hyphen has just been written. */
  function CollapseRuns(s: string, inRun: bool): string {
    if s == [] then []
    else if s[0] == '-' then
      if inRun then CollapseRuns(s[1..], true) else "-" + CollapseRuns(s[1..], true)
    else [s[0]] + CollapseRuns(s[1..], false)
  }

  /** Hyphenating leaves no white space and brings in no character but the hyphen. */
  lemma {:induction false} HyphenateShape(s: string, inRun: bool)
    ensures NoSpace(HyphenateRuns(s, inRun))
    ensures forall c :: c in HyphenateRuns(s, inRun) ==> c == '-' || c in s
    decreases |s|
  {
    if s != [] {
      HyphenateShape(s[1..], IsSpace(s[0]));
    }
  }

  /** Collapsing leaves no two adjacent hyphens, starts with no hyphen right after one, and brings in nothing new. */
  lemma {:induction false} CollapseShape(s: string, inRun: bool)
    ensures NoDoubleHyphen(CollapseRuns(s, inRun))
    ensures inRun ==> CollapseRuns(s, inRun) == [] || CollapseRuns(s, inRun)[0] != '-'
    ensures forall c :: c in CollapseRuns(s, inRun) ==> c in s
    decreases |s|
  {
    if s != [] {
      CollapseShape(s[1..], s[0] == '-');
    }
  }

  /** A text whose hyphens stand alone is left as it is. */
  lemma {:induction false} CollapseFixed(s: string, inRun: bool)
    ensures NoDoubleHyphen(s) && (inRun ==> s == [] || s[0] != '-') ==> CollapseRuns(s, inRun) == s
    decreases |s|
  {
    if s != [] && NoDoubleHyphen(s) && (inRun ==> s[0] != '-') {
      assert NoDoubleHyphen(s[1..]);
      CollapseFixed(s[1..], s[0] == '-');
    }
  }

  /** A text without white space is left as it is. */
  lemma {:induction false} HyphenateSpaceless(s: string, inRun: bool)
    ensures NoSpace(s) ==> HyphenateRuns(s, inRun) == s
    decreases |s|
  {
    if s != [] && NoSpace(s) {
      HyphenateSpaceless(s[1..], false);
    }
  }

  /** A white-space run hyphenated by `HyphenateRuns` leaves one hyphen, or none when a run was already open. */
  lemma {:induction false} HyphenateRun(run: string, rest: string, inRun: bool)
    requires run != [] && AllSpace(run)
    ensures HyphenateRuns(run + rest, inRun) == (if inRun then "" else "-") + HyphenateRuns(rest, true)
    decreases |run|
  {
    assert (run + rest)[1..] == run[1..] + rest;
    if |run| > 1 {
      HyphenateRun(run[1..], rest, true);
    } else {
      assert run[1..] + rest == rest;
    }
  }

  /** A run that ends before a character other than white space leaves the rest as a fresh start would. */
  lemma HyphenateAfterRun(rest: string)
    requires rest == [] || !IsSpace(rest[0])
    ensures HyphenateRuns(rest, true) == HyphenateRuns(rest, false)
  {
  }

  lemma ConsAppend(w: string, t: string)
    requires w != []
    ensures [w[0]] + (w[1..] + t) == w + t
  {
    assert w == [w[0]] + w[1..];
  }

  lemma HyphenateCopies(w: string, rest: string)
    requires w != [] && !IsSpace(w[0])
    ensures HyphenateRuns(w + rest, false) == [w[0]] + HyphenateRuns(w[1..] + rest, false)
  {
    assert (w + rest)[0] == w[0] && (w + rest)[1..] == w[1..] + rest;
  }

  /** Characters other than white space are copied in place. */
  lemma {:induction false} HyphenateWord(w: string, rest: string)
    requires NoSpace(w)
    ensures HyphenateRuns(w + rest, false) == w + HyphenateRuns(rest, false)
    decreases |w|
  {
    if w == [] {
      assert w + rest == rest;
    } else {
      assert NoSpace(w[1..]);
      HyphenateWord(w[1..], rest);
      HyphenateCopies(w, rest);
      ConsAppend(w, HyphenateRuns(rest, false));
    }
  }

  /** Hyphenating splits at a point where no white-space run is cut. */
  lemma {:induction false} HyphenateSplit(x: string, rest: string, inRun: bool)
    requires rest == [] || !IsSpace(rest[0])
    ensures HyphenateRuns(x + rest, inRun) == HyphenateRuns(x, inRun) + HyphenateRuns(rest, false)
    decreases |x|
  {
    if x == [] {
      assert x + rest == rest;
      HyphenateAfterRun(rest);
    } else {
      HyphenateSplit(x[1..], rest, IsSpace(x[0]));
      HyphenateSplitStep(x, rest, inRun);
    }
  }

  /** One step of `HyphenateSplit`: the first character of `x` is written the same way either side of the split. */
  lemma HyphenateSplitStep(x: string, rest: string, inRun: bool)
    requires x != []
    requires HyphenateRuns(x[1..] + rest, IsSpace(x[0])) == HyphenateRuns(x[1..], IsSpace(x[0])) + HyphenateRuns(rest, false)
    ensures HyphenateRuns(x + rest, inRun) == HyphenateRuns(x, inRun) + HyphenateRuns(rest, false)
  {
    var head := HyphenateHead(x, rest, inRun);
    Regroup(head, HyphenateRuns(x[1..], IsSpace(x[0])), HyphenateRuns(rest, false));
  }

  lemma Regroup(a: string, b: string, c: string)
    ensures a + (b + c) == (a + b) + c
  {
  }

  /** What hyphenating writes for the first character of `x`, whatever follows it. */
  lemma HyphenateHead(x: string, rest: string, inRun: bool) returns (head: string)
    requires x != []
    ensures HyphenateRuns(x, inRun) == head + HyphenateRuns(x[1..], IsSpace(x[0]))
    ensures HyphenateRuns(x + rest, inRun) == head + HyphenateRuns(x[1..] + rest, IsSpace(x[0]))
  {
    assert (x + rest)[0] == x[0] && (x + rest)[1..] == x[1..] + rest;
    head := if !IsSpace(x[0]) then [x[0]] else if inRun then [] else "-";
  }

  /**
   * `replace(/\s+/g, '-')` on a text with a white-space run between `w` and `rest`: the
   * characters of `w` stay where they are and the whole run becomes one hyphen.
   */
  lemma HyphenateSpacesRuns(w: string, run: string, rest: string)
    requires NoSpace(w) && run != [] && AllSpace(run) && (rest == [] || !IsSpace(rest[0]))
    ensures HyphenateSpaces(w + run + rest) == w + "-" + HyphenateSpaces(rest)
  {
    assert w + run + rest == w + (run + rest);
    HyphenateWord(w, run + rest);
    HyphenateRun(run, rest, false);
    HyphenateAfterRun(rest);
  }

  /** A hyphen run collapsed by `CollapseRuns` leaves one hyphen, or none when a hyphen was just written. */
  lemma {:induction false} CollapseRun(run: string, rest: string, inRun: bool)
    requires run != [] && forall i :: 0 <= i < |run| ==> run[i] == '-'
    ensures CollapseRuns(run + rest, inRun) == (if inRun then "" else "-") + CollapseRuns(rest, true)
    decreases |run|
  {
    assert (run + rest)[1..] == run[1..] + rest;
    if |run| > 1 {
      CollapseRun(run[1..], rest, true);
    } else {
      assert run[1..] + rest == rest;
    }
  }

  lemma CollapseAfterRun(rest: string)
    requires rest == [] || rest[0] != '-'
    ensures CollapseRuns(rest, true) == CollapseRuns(rest, false)
  {
  }

  lemma CollapseCopies(w: string, rest: string)
    requires w != [] && w[0] != '-'
    ensures CollapseRuns(w + rest, false) == [w[0]] + CollapseRuns(w[1..] + rest, false)
  {
    assert (w + rest)[0] == w[0] && (w + rest)[1..] == w[1..] + rest;
  }

  /** Characters other than hyphens are copied in place. */
  lemma {:induction false} CollapseWord(w: string, rest: string)
    requires '-' !in w
    ensures CollapseRuns(w + rest, false) == w + CollapseRuns(rest, false)
    decreases |w|
  {
    if w == [] {
      assert w + rest == rest;
    } else {
      assert '-' !in w[1..];
      CollapseWord(w[1..], rest);
      CollapseCopies(w, rest);
      ConsAppend(w, CollapseRuns(rest, false));
    }
  }

  /**
   * `replace(/\-\-+/g, '-')` on a text with a hyphen run between `w` and `rest`: the
   * characters of `w` stay where they are and the whole run becomes one hyphen.
   */
  lemma CollapseHyphensRuns(w: string, run: string, rest: string)
    requires '-' !in w && run != [] && (forall i :: 0 <= i < |run| ==> run[i] == '-') && (rest == [] || rest[0] != '-')
    ensures CollapseHyphens(w + run + rest) == w + "-" + CollapseHyphens(rest)
  {
    assert w + run + rest == w + (run + rest);
    CollapseWord(w, run + rest);
    CollapseRun(run, rest, false);
    CollapseAfterRun(rest);
  }

  predicate NoUpper(s: string) {
    forall i :: 0 <= i < |s| ==> !IsAsciiUpper(s[i])
  }

  predicate AllSlugChars(s: string) {
    forall i :: 0 <= i < |s| ==> IsSlugChar(s[i])
  }

  /** The slug of a text: lowercase, trim, hyphenate white space, drop other punctuation, tidy hyphens. */
  function Slugify(text: string): (r: string)
    ensures IsSlug(r)
  {
    var lowered := Trim(Lower(text));
    LoweredHasNoUpper(text);
    var cleaned := CollapseHyphens(DropNonWord(HyphenateSpaces(lowered)));
    CleanedChars(lowered);
    TidyIsSlug(cleaned);
    TrimTrailingHyphens(TrimLeadingHyphens(cleaned))
  }

  lemma LoweredHasNoUpper(text: string)
    ensures NoUpper(Trim(Lower(text)))
  {
    var l := Lower(text);
    var t := Trim(l);
    var k := |TrimStart(l)|;
    assert TrimStart(l) == l[|l| - k..];
    assert t == TrimStart(l)[..|t|];
    forall i | 0 <= i < |t|
      ensures !IsAsciiUpper(t[i])
    {
      assert t[i] == l[|l| - k + i];
    }
  }

  lemma CleanedChars(lowered: string)
    requires NoUpper(lowered)
    ensures AllSlugChars(CollapseHyphens(DropNonWord(HyphenateSpaces(lowered))))
  {
    var h := HyphenateSpaces(lowered);
    assert NoUpper(h) by {
      forall i | 0 <= i < |h|
        ensures !IsAsciiUpper(h[i])
      {
        if h[i] != '-' {
          var j :| 0 <= j < |lowered| && lowered[j] == h[i];
        }
      }
    }
    var d := DropNonWord(h);
    assert forall i :: 0 <= i < |d| ==> IsSlugChar(d[i]) by {
      forall i | 0 <= i < |d|
        ensures IsSlugChar(d[i])
      {
        assert d[i] in h;
        var j :| 0 <= j < |h| && h[j] == d[i];
      }
    }
    var c := CollapseHyphens(d);
    forall i | 0 <= i < |c|
      ensures IsSlugChar(c[i])
    {
      var j :| 0 <= j < |d| && d[j] == c[i];
    }
  }

  lemma TidyIsSlug(c: string)
    requires AllSlugChars(c) && NoDoubleHyphen(c)
    ensures IsSlug(TrimTrailingHyphens(TrimLeadingHyphens(c)))
  {
    var l := TrimLeadingHyphens(c);
    SliceKeepsShape(c, |c| - |l|, |c|);
    var t := TrimTrailingHyphens(l);
    SliceKeepsShape(l, 0, |t|);
    if t != [] {
      assert t[0] == l[0];
    }
  }

  /** A piece of a string keeps its characters and has no new adjacent hyphens. */
  lemma SliceKeepsShape(s: string, i: nat, j: nat)
    requires AllSlugChars(s) && NoDoubleHyphen(s) && i <= j <= |s|
    ensures AllSlugChars(s[i..j]) && NoDoubleHyphen(s[i..j])
  {
    var t := s[i..j];
    forall k | 0 <= k < |t|
      ensures IsSlugChar(t[k])
    {
      assert t[k] == s[i + k];
    }
    forall k | 0 <= k < |t| - 1
      ensures !(t[k] == '-' && t[k + 1] == '-')
    {
      assert t[k] == s[i + k] && t[k + 1] == s[i + k + 1];
    }
  }

  lemma LowerFixed(s: string)
    requires NoUpper(s)
    ensures Lower(s) == s
  {
  }

  lemma TrimFixed(s: string)
    requires Trimmed(s)
    ensures Trim(s) == s
  {
    TrimPadded("", s, "");
    assert "" + s + "" == s;
  }

  lemma SlugFacts(s: string)
    requires IsSlug(s)
    ensures NoUpper(s) && NoSpace(s) && Trimmed(s)
    ensures forall i :: 0 <= i < |s| ==> IsKept(s[i])
  {
  }

  /** A slug is its own slug. */
  lemma SlugIsFixed(s: string)
    requires IsSlug(s)
    ensures Slugify(s) == s
  {
    SlugFacts(s);
    LowerFixed(s);
    TrimFixed(s);
    var h := HyphenateSpaces(s);
    assert h == s;
    var d := DropNonWord(h);
    assert d == s;
    var c := CollapseHyphens(d);
    assert c == s;
  }

  /** Slugifying twice gives the same slug as slugifying once. */
  lemma SlugifyIdempotent(text: string)
    ensures Slugify(Slugify(text)) == Slugify(text)
  {
    SlugIsFixed(Slugify(text));
  }

  /** A text made only of letters, digits and underscores is lowercased and otherwise kept. */
  lemma WordIsLowered(text: string)
    requires forall i :: 0 <= i < |text| ==> IsWordChar(text[i])
    ensures Slugify(text) == Lower(text)
  {
    var l := Lower(text);
    assert forall i :: 0 <= i < |l| ==> IsWordChar(l[i]) && !IsSpace(l[i]) && l[i] != '-';
    assert IsSlug(l);
    SlugIsFixed(l);
    LowerFixed(l);
  }

  /** A non-empty run of letters, digits and underscores. */
  predicate IsWord(s: string) {
    s != [] && forall i :: 0 <= i < |s| ==> IsWordChar(s[i])
  }

  /** A non-empty run of white space and hyphens, such as " ", " - " or "--". */
  predicate IsSeparator(s: string) {
    s != [] && forall i :: 0 <= i < |s| ==> IsSpace(s[i]) || s[i] == '-'
  }

  predicate StartsWord(s: string) {
    s != [] && IsWordChar(s[0])
  }

  /**
   * A word, a separator and a rest that starts with a word: the slug is the lowercased
   * word, one hyphen, and the slug of the rest.
   */
  lemma SlugifyWordThen(a: string, sep: string, rest: string)
    requires IsWord(a) && IsSeparator(sep) && StartsWord(rest)
    ensures Slugify(a + sep + rest) == Lower(a) + "-" + Slugify(rest)
  {
    LoweredWordThen(a, sep, rest);
    var word, t := Lower(a), Trim(Lower(rest));
    var hyphens := HyphenatedWordThen(word, sep, t);
    var h := HyphenateSpaces(t);
    DroppedWordThen(word, hyphens, h);
    var d := DropNonWord(h);
    CollapsedWordThen(word, hyphens, d);
    TidiedWordThen(word, CollapseHyphens(d));
  }

  /** A word followed by punctuation only: the punctuation goes and the word is lowercased. */
  lemma SlugifyDropsPunctuation(a: string, p: string)
    requires IsWord(a) && IsPunctuation(p)
    ensures Slugify(a + p) == Lower(a)
  {
    var word := Lower(a);
    LoweredPunctuation(a, p);
    DroppedPunctuation(word, p);
    assert NoDoubleHyphen(word) && word[0] != '-' && word[|word| - 1] != '-';
    calc {
      Slugify(a + p);
      TrimTrailingHyphens(TrimLeadingHyphens(CollapseHyphens(DropNonWord(HyphenateSpaces(word + p)))));
      TrimTrailingHyphens(TrimLeadingHyphens(CollapseHyphens(word)));
      word;
    }
  }

  /** Characters that are neither kept in a slug nor white space. */
  predicate IsPunctuation(p: string) {
    forall i :: 0 <= i < |p| ==> !IsKept(p[i]) && !IsSpace(p[i])
  }

  lemma LoweredPunctuation(a: string, p: string)
    requires IsWord(a) && IsPunctuation(p)
    ensures IsWord(Lower(a))
    ensures Trim(Lower(a + p)) == Lower(a) + p
  {
    LowerWord(a);
    var word := Lower(a);
    LowerAppend(a, p);
    LowerFixed(p);
    assert Trimmed(word + p) by {
      if p != [] {
        assert (word + p)[|word + p| - 1] == p[|p| - 1];
      }
    }
    TrimFixed(word + p);
  }

  lemma LowerWord(a: string)
    requires IsWord(a)
    ensures IsWord(Lower(a))
  {
    var word := Lower(a);
    forall i | 0 <= i < |word|
      ensures IsWordChar(word[i])
    {
      assert word[i] == LowerChar(a[i]);
    }
  }

  lemma LowerAppend(x: string, y: string)
    ensures Lower(x + y) == Lower(x) + Lower(y)
  {
    var l, r := Lower(x + y), Lower(x) + Lower(y);
    forall i | 0 <= i < |l|
      ensures l[i] == r[i]
    {
      if i < |x| {
        assert (x + y)[i] == x[i];
      } else {
        assert (x + y)[i] == y[i - |x|];
      }
    }
  }

  lemma DroppedPunctuation(word: string, p: string)
    requires IsWord(word) && IsPunctuation(p)
    ensures DropNonWord(HyphenateSpaces(word + p)) == word
  {
    assert NoSpace(word + p);
    Seqs.FilterAppend(word, p, IsKept);
    Seqs.FilterKeepsAll(word, IsKept);
    Seqs.FilterDropsAll(p, IsKept);
    assert word + [] == word;
  }

  /** Two words with a separator between them: the lowercased words joined by one hyphen. */
  lemma SlugifyTwoWords(a: string, sep: string, b: string)
    requires IsWord(a) && IsSeparator(sep) && IsWord(b)
    ensures Slugify(a + sep + b) == Lower(a) + "-" + Lower(b)
  {
    SlugifyWordThen(a, sep, b);
    WordIsLowered(b);
  }

  /** A word with a closing exclamation mark. */
  lemma SlugifyPunctuationExample(text: string)
    requires text == "Gatsby!"
    ensures Slugify(text) == "gatsby"
  {
    var word :| word == "Gatsby";
    var mark :| mark == "!";
    var lowered := Lower(word);
    assert lowered == "gatsby" by {
      assert lowered[0] == 'g' && lowered[1] == 'a' && lowered[2] == 't' && lowered[3] == 's' && lowered[4] == 'b' && lowered[5] == 'y';
    }
    assert text == word + mark;
    assert IsWord(word) && IsPunctuation(mark);
    SlugifyDropsPunctuation(word, mark);
  }

  lemma SlugifyPhraseExample(text: string)
    requires text == "Great Gatsby!"
    ensures Slugify(text) == "great-gatsby"
  {
    var word :| word == "Great";
    var space :| space == " ";
    var rest :| rest == "Gatsby!";
    PhraseParts(text, word, space, rest);
    SlugifyPunctuationExample(rest);
    SlugifyWordThen(word, space, rest);
  }

  lemma PhraseParts(text: string, word: string, space: string, rest: string)
    requires text == "Great Gatsby!" && word == "Great" && space == " " && rest == "Gatsby!"
    ensures text == word + space + rest
    ensures IsWord(word) && IsSeparator(space) && StartsWord(rest)
    ensures Lower(word) + "-" + "gatsby" == "great-gatsby"
  {
    var lowered := Lower(word);
    assert lowered == "great" by {
      assert lowered[0] == 'g' && lowered[1] == 'r' && lowered[2] == 'e' && lowered[3] == 'a' && lowered[4] == 't';
    }
  }

  /** A title with two spaces and a closing exclamation mark. */
  lemma SlugifyTitleExample(text: string)
    requires text == "The Great Gatsby!"
    ensures Slugify(text) == "the-great-gatsby"
  {
    var word :| word == "The";
    var space :| space == " ";
    var rest :| rest == "Great Gatsby!";
    TitleParts(text, word, space, rest);
    SlugifyPhraseExample(rest);
    SlugifyWordThen(word, space, rest);
  }

  lemma TitleParts(text: string, word: string, space: string, rest: string)
    requires text == "The Great Gatsby!" && word == "The" && space == " " && rest == "Great Gatsby!"
    ensures text == word + space + rest
    ensures IsWord(word) && IsSeparator(space) && StartsWord(rest)
    ensures Lower(word) + "-" + "great-gatsby" == "the-great-gatsby"
  {
    var lowered := Lower(word);
    assert lowered == "the" by {
      assert lowered[0] == 't' && lowered[1] == 'h' && lowered[2] == 'e';
    }
  }

  /** A level label whose parts are separated by a spaced hyphen. */
  lemma SlugifyLevelExample(text: string)
    requires text == "A2 - B1"
    ensures Slugify(text) == "a2-b1"
  {
    var first :| first == "A2";
    var sep :| sep == " - ";
    var second :| second == "B1";
    var l1, l2 := Lower(first), Lower(second);
    assert l1 == "a2" by {
      assert l1[0] == 'a' && l1[1] == '2';
    }
    assert l2 == "b1" by {
      assert l2[0] == 'b' && l2[1] == '1';
    }
    assert l1 + "-" + l2 == "a2-b1";
    assert text == first + sep + second;
    assert IsWord(first) && IsSeparator(sep) && IsWord(second);
    SlugifyTwoWords(first, sep, second);
  }

  /** Lowercasing keeps a separator and moves the trim past the first word. */
  lemma LoweredWordThen(a: string, sep: string, rest: string)
    requires IsWord(a) && IsSeparator(sep) && StartsWord(rest)
    ensures IsWord(Lower(a))
    ensures Trim(Lower(a + sep + rest)) == Lower(a) + sep + Trim(Lower(rest))
    ensures StartsWord(Trim(Lower(rest)))
  {
    LowerWord(a);
    var word, lr := Lower(a), Lower(rest);
    LowerAppend(a + sep, rest);
    LowerAppend(a, sep);
    LowerFixed(sep);
    assert !IsSpace(word[0]) && !IsSpace(lr[0]);
    assert TrimStart(word + sep + lr) == word + sep + lr;
    assert TrimStart(lr) == lr;
    TrimEndAfter(word + sep, lr);
  }

  lemma TrimEndAfter(x: string, y: string)
    requires y != [] && !IsSpace(y[0])
    ensures TrimEnd(x + y) == x + TrimEnd(y)
    ensures TrimEnd(y) != [] && TrimEnd(y)[0] == y[0]
  {
    var t := TrimEnd(y);
    var pad := y[|t|..];
    assert y == t + pad;
    TrimEndPadded(x + t, pad);
    assert x + y == (x + t) + pad;
  }

  lemma HyphenatedWordThen(word: string, sep: string, t: string) returns (hyphens: string)
    requires IsWord(word) && IsSeparator(sep) && StartsWord(t)
    ensures hyphens != [] && forall i :: 0 <= i < |hyphens| ==> hyphens[i] == '-'
    ensures HyphenateSpaces(word + sep + t) == word + hyphens + HyphenateSpaces(t)
    ensures StartsWord(HyphenateSpaces(t))
  {
    assert NoSpace(word);
    hyphens := HyphenateRuns(sep, false);
    HyphenateShape(sep, false);
    forall i | 0 <= i < |hyphens|
      ensures hyphens[i] == '-'
    {
      assert hyphens[i] in hyphens;
    }
    assert word + sep + t == word + (sep + t);
    HyphenateWord(word, sep + t);
    HyphenateSplit(sep, t, false);
    var first := HyphenateHead(t, [], false);
  }

  lemma DroppedWordThen(word: string, hyphens: string, h: string)
    requires IsWord(word) && hyphens != [] && (forall i :: 0 <= i < |hyphens| ==> hyphens[i] == '-') && StartsWord(h)
    ensures DropNonWord(word + hyphens + h) == word + hyphens + DropNonWord(h)
    ensures StartsWord(DropNonWord(h))
  {
    Seqs.FilterAppend(word + hyphens, h, IsKept);
    Seqs.FilterAppend(word, hyphens, IsKept);
    Seqs.FilterKeepsAll(word, IsKept);
    Seqs.FilterKeepsAll(hyphens, IsKept);
  }

  lemma CollapsedWordThen(word: string, hyphens: string, d: string)
    requires IsWord(word) && hyphens != [] && (forall i :: 0 <= i < |hyphens| ==> hyphens[i] == '-') && StartsWord(d)
    ensures CollapseHyphens(word + hyphens + d) == word + "-" + CollapseHyphens(d)
    ensures StartsWord(CollapseHyphens(d))
  {
    assert '-' !in word;
    CollapseHyphensRuns(word, hyphens, d);
  }

  lemma TidiedWordThen(word: string, c: string)
    requires IsWord(word) && StartsWord(c)
    ensures TrimTrailingHyphens(TrimLeadingHyphens(word + "-" + c)) == word + "-" + TrimTrailingHyphens(TrimLeadingHyphens(c))
  {
    TrimTrailingAfter(word + "-", c);
  }

  lemma {:induction false} TrimTrailingAfter(x: string, z: string)
    requires z != [] && z[0] != '-'
    ensures TrimTrailingHyphens(x + z) == x + TrimTrailingHyphens(z)
    decreases |z|
  {
    if z[|z| - 1] == '-' {
      var shorter := z[..|z| - 1];
      assert (x + z)[..|x + z| - 1] == x + shorter;
      TrimTrailingAfter(x, shorter);
    }
  }

  /** The path of a book's page, `/library/<name slug>/<level slug>/<id>`; the id is used as it is. */
  function BookUrl(bookName: string, languageLevel: string, id: string): (r: string)
    ensures Split(r, '/') == ["", "library", Slugify(bookName), Slugify(languageLevel)] + Split(id, '/')
  {
    var name := Slugify(bookName);
    var level := Slugify(languageLevel);
    BookUrlSegments(name, level, id);
    "/library/" + name + "/" + level + "/" + id
  }

  lemma BookUrlSegments(name: string, level: string, id: string)
    requires IsSlug(name) && IsSlug(level)
    ensures Split("/library/" + name + "/" + level + "/" + id, '/') == ["", "library", name, level] + Split(id, '/')
  {
    var segments := ["", "library", name, level];
    NoSlashInSlug(name);
    NoSlashInSlug(level);
    SplitPath(segments, id);
    PathOfBook(name, level, id);
  }

  lemma NoSlashInSlug(s: string)
    requires IsSlug(s)
    ensures '/' !in s
  {
    assert !IsSlugChar('/');
  }

  lemma PathOfBook(name: string, level: string, id: string)
    ensures Path(["", "library", name, level], id) == "/library/" + name + "/" + level + "/" + id
  {
    var segments := ["", "library", name, level];
    var p3 := level + ("/" + id);
    assert Path(segments[3..], id) == p3 by {
      assert segments[3..] == [level] && [level][1..] == [];
    }
    var p2 := name + ("/" + p3);
    assert Path(segments[2..], id) == p2 by {
      assert segments[2..][1..] == segments[3..];
    }
    var p1 := "library" + ("/" + p2);
    assert Path(segments[1..], id) == p1 by {
      assert segments[1..][1..] == segments[2..];
    }
    assert Path(segments, id) == "" + ("/" + p1);
    assert "" + ("/" + p1) == "/library/" + name + "/" + level + "/" + id;
  }

  /** Each segment followed by a '/', then `last`. */
  function Path(segments: seq<string>, last: string): string {
    if segments == [] then last else segments[0] + ("/" + Path(segments[1..], last))
  }

  /** A path segment holds no '/'. */
  predicate IsSegment(s: string) {
    '/' !in s
  }

  /** Splitting a path on '/' gives back its segments when none of them holds a '/'. */
  lemma {:induction false} SplitPath(segments: seq<string>, last: string)
    requires forall i :: 0 <= i < |segments| ==> IsSegment(segments[i])
    ensures Split(Path(segments, last), '/') == segments + Split(last, '/')
  {
    if segments != [] {
      assert forall i :: 0 <= i < |segments[1..]| ==> segments[1..][i] == segments[i + 1];
      SplitPath(segments[1..], last);
      SplitPathStep(segments[0], segments[1..], last, Split(last, '/'));
      assert [segments[0]] + segments[1..] == segments;
    }
  }

  lemma SplitPathStep(head: string, tail: seq<string>, last: string, pieces: seq<string>)
    requires IsSegment(head) && Split(Path(tail, last), '/') == tail + pieces
    ensures Split(Path([head] + tail, last), '/') == [head] + tail + pieces
  {
    var rest := Path(tail, last);
    assert Path([head] + tail, last) == head + ("/" + rest) by {
      assert ([head] + tail)[1..] == tail;
    }
    SplitPrepend(head, rest, tail + pieces);
  }

  lemma SplitPrepend(head: string, path: string, pieces: seq<string>)
    requires '/' !in head && Split(path, '/') == pieces
    ensures Split(head + ("/" + path), '/') == [head] + pieces
  {
    assert head + ("/" + path) == head + ['/'] + path;
    SplitAfterHead(head, '/', path);
  }
}
