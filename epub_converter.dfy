/**
 * EPUB to PDF conversion: the text of the archive's HTML files, cut to a word budget,
 * wrapped greedily to the text width and set in a fixed-size font from the top of each
 * page down, one fresh page per file; plus the cache check on the output file and the
 * title, creator and language read from the package document.
 */
module EpubConverter {
  import opened Wrappers
  import opened Strings
  import opened Seqs
  import opened Files
  import opened Pdf
  import Staging

  /** Font size in points. */
  const FontSize := 12
  /** Lengths below are in tenths of a point: Letter paper, 50 pt margins, lines 1.2 times the font size apart. */
  const PageWidth := 6120
  const PageHeight := 7920
  const Margin := 500
  const LineHeight := 144
  /** The first baseline of a page. */
  const Top := PageHeight - Margin
  /** A baseline below this starts a new page. */
  const Bottom := Margin + LineHeight
  /** The width available to a line, in points: the page width less both margins. */
  const TextWidth: real := 512.0
  /** The word budget of a whole book. */
  const MaxWords := 15000
  /** How many baselines fit between `Top` and `Bottom`. */
  const LinesPerPage := 48

  /**
   * The embedded Times Roman font: the width in points of a string at the font size
   * (`widthOfTextAtSize`), and which characters its encoding can represent; measuring
   * a string with any other character throws.
   */
  datatype Font = Font(width: string -> real, encodable: char -> bool)

  predicate Encodable(font: Font, s: string) {
    forall k :: 0 <= k < |s| ==> font.encodable(s[k])
  }

  predicate Fits(font: Font, line: string) {
    font.width(line) <= TextWidth
  }

  /** The words of `g` with one space between neighbours. */
  function Joined(g: seq<string>): (r: string)
    ensures |g| >= 2 ==> r != ""
  {
    if g == [] then "" else if |g| == 1 then g[0] else Joined(g[..|g| - 1]) + " " + g[|g| - 1]
  }

  /** Encoding a joined line needs its words, and the space between them when there are several. */
  lemma EncodableAppend(font: Font, a: string, b: string)
    ensures Encodable(font, a + b) <==> Encodable(font, a) && Encodable(font, b)
  {
    if Encodable(font, a) && Encodable(font, b) {
      forall k | 0 <= k < |a + b|
        ensures font.encodable((a + b)[k])
      {
        if k >= |a| {
          assert (a + b)[k] == b[k - |a|];
        }
      }
    }
    if Encodable(font, a + b) {
      forall k | 0 <= k < |a|
        ensures font.encodable(a[k])
      {
        assert (a + b)[k] == a[k];
      }
      forall k | 0 <= k < |b|
        ensures font.encodable(b[k])
      {
        assert (a + b)[|a| + k] == b[k];
      }
    }
  }

  /** The words of a line, or none when the line is still empty: a line of one empty word is no line. */
  function Started(g: seq<string>): seq<string> {
    if Joined(g) == "" then [] else g
  }

  /** `r` after the lines `done`, when there is an `r`. */
  function Prepended(done: seq<seq<string>>, r: Option<seq<seq<string>>>): (p: Option<seq<seq<string>>>)
    ensures p.Some? <==> r.Some?
  {
    if r.None? then None else Some(done + r.value)
  }

  /**
   * The greedy wrap, as the words of each line: a word joins the current line `cur` when
   * the line with it still fits, and otherwise closes it and starts the next; None when a
   * line measured on the way holds a character the font cannot encode.
   */
  function WrapFrom(words: seq<string>, font: Font, cur: seq<string>): Option<seq<seq<string>>>
    decreases |words|
  {
    if words == [] then Some(if cur == [] then [] else [cur])
    else
      var test := cur + [words[0]];
      if !Encodable(font, Joined(test)) then None
      else if Fits(font, Joined(test)) then WrapFrom(words[1..], font, Started(test))
      else Prepended(if cur == [] then [] else [cur], WrapFrom(words[1..], font, Started([words[0]])))
  }

  /** The wrap of one file's words, starting from an empty line. */
  function Wrap(words: seq<string>, font: Font): Option<seq<seq<string>>> {
    WrapFrom(words, font, [])
  }

  /** The text of each line. */
  function Lines(groups: seq<seq<string>>): (r: seq<string>)
    ensures |r| == |groups| && forall k :: 0 <= k < |r| ==> r[k] == Joined(groups[k])
  {
    seq(|groups|, k requires 0 <= k < |groups| => Joined(groups[k]))
  }

  predicate IsWord(w: string) {
    w != ""
  }

  /** A line is well formed: not empty, and within the text width unless it is a single word. */
  predicate GoodLine(font: Font, g: seq<string>) {
    Joined(g) != "" && (Fits(font, Joined(g)) || |g| == 1)
  }

  /** Every line the wrap emits is non-empty, and fits the text width or is a single word. */
  lemma {:induction false} WrapLinesFit(words: seq<string>, font: Font, cur: seq<string>)
    requires cur == [] || GoodLine(font, cur)
    requires WrapFrom(words, font, cur).Some?
    ensures forall k :: 0 <= k < |WrapFrom(words, font, cur).value| ==> GoodLine(font, WrapFrom(words, font, cur).value[k])
    decreases |words|
  {
    if words != [] {
      var test := cur + [words[0]];
      if Fits(font, Joined(test)) {
        WrapLinesFit(words[1..], font, Started(test));
      } else {
        WrapLinesFit(words[1..], font, Started([words[0]]));
      }
    }
  }

  /** The non-empty words of the lines are the non-empty words of the input, in order: none is lost or repeated. */
  lemma {:induction false} WrapKeepsWords(words: seq<string>, font: Font, cur: seq<string>)
    requires WrapFrom(words, font, cur).Some?
    ensures Filter(Flatten(WrapFrom(words, font, cur).value), IsWord) == Filter(cur, IsWord) + Filter(words, IsWord)
    decreases |words|
  {
    if words == [] {
      KeepsAtEnd(cur);
    } else {
      var w, rest := words[0], words[1..];
      assert words == [w] + rest;
      var test := cur + [w];
      if Fits(font, Joined(test)) {
        WrapKeepsWords(rest, font, Started(test));
        KeepsOnJoin(cur, w, rest, WrapFrom(rest, font, Started(test)).value);
      } else {
        WrapKeepsWords(rest, font, Started([w]));
        KeepsOnBreak(cur, w, rest, WrapFrom(rest, font, Started([w])).value);
      }
    }
  }

  lemma KeepsAtEnd(cur: seq<string>)
    ensures Filter(Flatten(if cur == [] then [] else [cur]), IsWord) == Filter(cur, IsWord) + Filter([], IsWord)
  {
    assert Filter([], IsWord) == [];
    if cur != [] {
      assert [cur][..0] == [];
      assert Flatten([cur]) == cur;
    }
  }

  lemma KeepsOnJoin(cur: seq<string>, w: string, rest: seq<string>, r: seq<seq<string>>)
    requires Filter(Flatten(r), IsWord) == Filter(Started(cur + [w]), IsWord) + Filter(rest, IsWord)
    ensures Filter(Flatten(r), IsWord) == Filter(cur, IsWord) + Filter([w] + rest, IsWord)
  {
    StartedWords(cur + [w]);
    FilterAppend(cur, [w], IsWord);
    FilterAppend([w], rest, IsWord);
    Regroup(Filter(Flatten(r), IsWord), Filter(Started(cur + [w]), IsWord),
            Filter(cur, IsWord), Filter([w], IsWord), Filter(rest, IsWord), Filter([w] + rest, IsWord));
  }

  lemma Regroup<T>(lhs: seq<T>, s: seq<T>, a: seq<T>, b: seq<T>, c: seq<T>, rhs: seq<T>)
    requires lhs == s + c && s == a + b && rhs == b + c
    ensures lhs == a + rhs
  {
  }

  lemma KeepsOnBreak(cur: seq<string>, w: string, rest: seq<string>, r: seq<seq<string>>)
    requires Filter(Flatten(r), IsWord) == Filter(Started([w]), IsWord) + Filter(rest, IsWord)
    ensures Filter(Flatten((if cur == [] then [] else [cur]) + r), IsWord) == Filter(cur, IsWord) + Filter([w] + rest, IsWord)
  {
    StartedWords([w]);
    FilterAppend([w], rest, IsWord);
    if cur != [] {
      FlattenCons(cur, r);
      FilterAppend(cur, Flatten(r), IsWord);
    } else {
      assert [] + r == r;
    }
  }

  /** Dropping a line that joins to nothing drops no word. */
  lemma StartedWords(g: seq<string>)
    ensures Filter(Started(g), IsWord) == Filter(g, IsWord)
  {
    if Joined(g) == "" && g != [] {
      assert |g| == 1 && g == [g[0]] && g[0] == "";
    }
  }

  /** Flattening a line followed by more lines. */
  lemma {:induction false} FlattenCons<T>(s: seq<T>, ss: seq<seq<T>>)
    ensures Flatten([s] + ss) == s + Flatten(ss)
    decreases |ss|
  {
    if ss != [] {
      var init := ss[..|ss| - 1];
      var last := ss[|ss| - 1];
      assert ss == init + [last];
      assert [s] + ss == ([s] + init) + [last];
      FlattenSnoc([s] + init, last);
      FlattenCons(s, init);
      FlattenSnoc(init, last);
    } else {
      assert [s] == [] + [s];
      FlattenSnoc([], s);
    }
  }

  /** The line measured for a word: the word alone on an empty line, else the line, a space and the word. */
  lemma JoinedSnoc(g: seq<string>, w: string)
    ensures Joined(g + [w]) == if g == [] then w else Joined(g) + " " + w
  {
    assert (g + [w])[..|g|] == g;
  }

  /** A wrap that succeeds has measured every word, so the font encodes every character of every word. */
  lemma {:induction false} WrapNeedsEncodable(words: seq<string>, font: Font, cur: seq<string>)
    requires WrapFrom(words, font, cur).Some?
    ensures forall j :: 0 <= j < |words| ==> Encodable(font, words[j])
    decreases |words|
  {
    if words != [] {
      var w := words[0];
      var test := cur + [w];
      JoinedSnoc(cur, w);
      if cur != [] {
        EncodableAppend(font, Joined(cur) + " ", w);
      }
      if Fits(font, Joined(test)) {
        WrapNeedsEncodable(words[1..], font, Started(test));
      } else {
        WrapNeedsEncodable(words[1..], font, Started([w]));
      }
      forall j | 1 <= j < |words|
        ensures Encodable(font, words[j])
      {
        assert words[j] == words[1..][j - 1];
      }
    }
  }

  /** When the font encodes the space and every character of every word, the wrap succeeds. */
  lemma {:induction false} WrapSucceeds(words: seq<string>, font: Font, cur: seq<string>)
    requires Encodable(font, Joined(cur)) && font.encodable(' ')
    requires forall j :: 0 <= j < |words| ==> Encodable(font, words[j])
    ensures WrapFrom(words, font, cur).Some?
    decreases |words|
  {
    if words != [] {
      var w := words[0];
      var test := cur + [w];
      JoinedSnoc(cur, w);
      if cur != [] {
        EncodableAppend(font, Joined(cur), " ");
        EncodableAppend(font, Joined(cur) + " ", w);
      }
      assert Encodable(font, Joined(test));
      assert Joined([w]) == w;
      forall j | 0 <= j < |words[1..]|
        ensures Encodable(font, words[1..][j])
      {
        assert words[1..][j] == words[j + 1];
      }
      if Fits(font, Joined(test)) {
        WrapSucceeds(words[1..], font, Started(test));
      } else {
        WrapSucceeds(words[1..], font, Started([w]));
      }
    }
  }

  /**
   * The wrapping loop of one file: `currentLine` collects words while the line with the
   * next word fits and is pushed when it does not; measuring a line the font cannot
   * encode throws, which `ok == false` stands for.
   */
  method WrapWords(words: seq<string>, font: Font) returns (ok: bool, lines: seq<string>)
    ensures ok <==> Wrap(words, font).Some?
    ensures ok ==> lines == Lines(Wrap(words, font).value)
  {
    var currentLine := "";
    lines := [];
    ghost var cur: seq<string> := [];
    ghost var done: seq<seq<string>> := [];
    assert words[0..] == words;
    PrependedNothing(Wrap(words, font));
    for i := 0 to |words|
      invariant currentLine == Joined(cur) && (cur == [] <==> currentLine == "")
      invariant lines == Lines(done)
      invariant Wrap(words, font) == Prepended(done, WrapFrom(words[i..], font, cur))
    {
      var word := words[i];
      ghost var test := cur + [word];
      ghost var rest := words[i..];
      assert rest[0] == word && rest[1..] == words[i + 1..];
      WrapFromStep(rest, font, cur);
      JoinedSnoc(cur, word);
      var testLine := if currentLine != "" then currentLine + " " + word else word;
      assert testLine == Joined(test);
      if !Encodable(font, testLine) {
        return false, [];
      }
      if font.width(testLine) <= TextWidth {
        currentLine := testLine;
        cur := Started(test);
      } else {
        ghost var more := if cur == [] then [] else [cur];
        PrependedAppend(done, more, WrapFrom(words[i + 1..], font, Started([word])));
        if currentLine != "" {
          lines := lines + [currentLine];
        }
        done := done + more;
        currentLine := word;
        cur := Started([word]);
      }
    }
    assert WrapFrom(words[|words|..], font, cur) == Some(if cur == [] then [] else [cur]);
    if currentLine != "" {
      lines := lines + [currentLine];
      done := done + [cur];
    } else {
      assert done + [] == done;
    }
    ok := true;
  }

  /** One step of the wrap, for the first of the remaining words. */
  lemma WrapFromStep(rest: seq<string>, font: Font, cur: seq<string>)
    requires rest != []
    ensures WrapFrom(rest, font, cur) ==
      if !Encodable(font, Joined(cur + [rest[0]])) then None
      else if Fits(font, Joined(cur + [rest[0]])) then WrapFrom(rest[1..], font, Started(cur + [rest[0]]))
      else Prepended(if cur == [] then [] else [cur], WrapFrom(rest[1..], font, Started([rest[0]])))
  {
  }

  lemma PrependedNothing(r: Option<seq<seq<string>>>)
    ensures Prepended([], r) == r
  {
    if r.Some? {
      assert [] + r.value == r.value;
    }
  }

  lemma PrependedAppend(done: seq<seq<string>>, more: seq<seq<string>>, r: Option<seq<seq<string>>>)
    ensures Prepended(done, Prepended(more, r)) == Prepended(done + more, r)
  {
    if r.Some? {
      assert done + (more + r.value) == (done + more) + r.value;
    }
  }

  /** The marks for `lines` on one page, the k-th on the k-th baseline from the top. */
  function Marks(lines: seq<string>): (r: seq<Mark>)
    ensures |r| == |lines|
    decreases |lines|
  {
    if lines == [] then []
    else Marks(lines[..|lines| - 1]) + [Text(lines[|lines| - 1], Margin, Top - (|lines| - 1) * LineHeight, FontSize)]
  }

  /** A Letter page holding `lines`. */
  function PageOf(lines: seq<string>): Page {
    Page(PageWidth, PageHeight, Marks(lines))
  }

  /** The k-th line sits at the left margin on the k-th baseline from the top. */
  lemma {:induction false} MarkAt(lines: seq<string>, k: nat)
    requires k < |lines|
    ensures Marks(lines)[k] == Text(lines[k], Margin, Top - k * LineHeight, FontSize)
    decreases |lines|
  {
    if k < |lines| - 1 {
      MarkAt(lines[..|lines| - 1], k);
    }
  }

  /** Drawing one more line below the others on a page. */
  lemma PageOfSnoc(cur: seq<string>, x: string)
    ensures PageOf(cur + [x]).marks == PageOf(cur).marks + [Text(x, Margin, Top - |cur| * LineHeight, FontSize)]
  {
    assert (cur + [x])[..|cur|] == cur;
  }

  /**
   * The pages for `lines` when the current page already holds `cur`: a line goes below
   * the others while the page has room, and on a fresh page once 48 lines fill it.
   */
  function PagesFrom(lines: seq<string>, cur: seq<string>): (r: seq<Page>)
    ensures r != []
    decreases |lines|
  {
    if lines == [] then [PageOf(cur)]
    else if |cur| >= LinesPerPage then [PageOf(cur)] + PagesFrom(lines[1..], [lines[0]])
    else PagesFrom(lines[1..], cur + [lines[0]])
  }

  /** The pages one file's lines are set on, starting from a fresh page. */
  function Paginated(lines: seq<string>): seq<Page> {
    PagesFrom(lines, [])
  }

  /** The pages `n` lines take: a blank page for no lines, else `n / 48` rounded up. */
  function PageCount(n: nat): nat {
    if n == 0 then 1 else (n + LinesPerPage - 1) / LinesPerPage
  }

  /** Lines on a page holding at most 48 lines fill `PageCount` pages in all. */
  lemma {:induction false} PagesFromCount(lines: seq<string>, cur: seq<string>)
    requires |cur| <= LinesPerPage
    ensures |PagesFrom(lines, cur)| == PageCount(|cur| + |lines|)
    decreases |lines|
  {
    if lines != [] {
      if |cur| >= LinesPerPage {
        PagesFromCount(lines[1..], [lines[0]]);
        assert PageCount(|lines|) + 1 == PageCount(LinesPerPage + |lines|);
      } else {
        PagesFromCount(lines[1..], cur + [lines[0]]);
      }
    }
  }

  /** Every page is Letter sized and holds at most 48 lines. */
  lemma {:induction false} PagesFromSized(lines: seq<string>, cur: seq<string>)
    requires |cur| <= LinesPerPage
    ensures forall i :: 0 <= i < |PagesFrom(lines, cur)| ==>
      PagesFrom(lines, cur)[i].width == PageWidth && PagesFrom(lines, cur)[i].height == PageHeight &&
      |PagesFrom(lines, cur)[i].marks| <= LinesPerPage
    decreases |lines|
  {
    if lines != [] {
      if |cur| >= LinesPerPage {
        PagesFromSized(lines[1..], [lines[0]]);
      } else {
        PagesFromSized(lines[1..], cur + [lines[0]]);
      }
    }
  }

  /** `n` lines take `PageCount(n)` pages, each of Letter size and holding at most 48 lines. */
  lemma PaginatedPages(lines: seq<string>)
    ensures |Paginated(lines)| == PageCount(|lines|)
    ensures forall i :: 0 <= i < |Paginated(lines)| ==>
      Paginated(lines)[i].width == PageWidth && Paginated(lines)[i].height == PageHeight &&
      |Paginated(lines)[i].marks| <= LinesPerPage
  {
    PagesFromCount(lines, []);
    PagesFromSized(lines, []);
  }

  /** Every baseline of a page of at most 48 lines lies between the top margin and the bottom one. */
  lemma BaselinesOnPage(lines: seq<string>, k: nat)
    requires |lines| <= LinesPerPage && k < |lines|
    ensures Bottom <= PageOf(lines).marks[k].y <= Top
  {
    MarkAt(lines, k);
  }

  /** The texts of `marks`, in drawing order. */
  function Texts(marks: seq<Mark>): (r: seq<string>)
    ensures |r| == |marks|
    decreases |marks|
  {
    if marks == [] then [] else Texts(marks[..|marks| - 1]) + [marks[|marks| - 1].text]
  }

  /** The texts drawn on `pages`, page by page, top to bottom. */
  function Drawn(pages: seq<Page>): seq<string>
    decreases |pages|
  {
    if pages == [] then [] else Texts(pages[0].marks) + Drawn(pages[1..])
  }

  lemma {:induction false} TextsOfPage(lines: seq<string>)
    ensures Texts(PageOf(lines).marks) == lines
    decreases |lines|
  {
    if lines != [] {
      TextsOfPage(lines[..|lines| - 1]);
    }
  }

  /** The lines already on the page, then every further line, once each and in order. */
  lemma {:induction false} PagesFromDrawsAll(lines: seq<string>, cur: seq<string>)
    ensures Drawn(PagesFrom(lines, cur)) == cur + lines
    decreases |lines|
  {
    TextsOfPage(cur);
    if lines == [] {
      assert [PageOf(cur)][1..] == [];
    } else {
      assert [lines[0]] + lines[1..] == lines;
      if |cur| >= LinesPerPage {
        var rest := PagesFrom(lines[1..], [lines[0]]);
        PagesFromDrawsAll(lines[1..], [lines[0]]);
        assert ([PageOf(cur)] + rest)[1..] == rest;
      } else {
        PagesFromDrawsAll(lines[1..], cur + [lines[0]]);
      }
    }
  }

  /** Every line is drawn once, in order. */
  lemma PaginatedDrawsAll(lines: seq<string>)
    ensures Drawn(Paginated(lines)) == lines
  {
    PagesFromDrawsAll(lines, []);
    assert [] + lines == lines;
  }

  /** A line drawn on the last of `done + [PageOf(cur)]` joins `cur` there. */
  lemma DrawnBelow(done: seq<Page>, cur: seq<string>, x: string)
    ensures WithMark(done + [PageOf(cur)], Text(x, Margin, Top - LineHeight * |cur|, FontSize)) == done + [PageOf(cur + [x])]
  {
    PageOfSnoc(cur, x);
    var r := WithMark(done + [PageOf(cur)], Text(x, Margin, Top - LineHeight * |cur|, FontSize));
    assert r == r[..|r| - 1] + [r[|r| - 1]];
  }

  /**
   * Sets one file's lines: a fresh page, then each line on the next baseline, with a new
   * page when the baseline would fall below the bottom margin.
   */
  method LayOutLines(doc: Document, lines: seq<string>)
    modifies doc
    ensures doc.pages == old(doc.pages) + Paginated(lines)
  {
    var y := Top;
    doc.AddPage(PageWidth, PageHeight);
    ghost var done: seq<Page> := old(doc.pages);
    ghost var cur: seq<string> := [];
    assert lines[0..] == lines;
    for j := 0 to |lines|
      invariant doc.pages == done + [PageOf(cur)]
      invariant y == Top - LineHeight * |cur|
      invariant old(doc.pages) + Paginated(lines) == done + PagesFrom(lines[j..], cur)
    {
      assert lines[j..][1..] == lines[j + 1..];
      if y < Bottom {
        doc.AddPage(PageWidth, PageHeight);
        y := Top;
        assert [] + [lines[j]] == [lines[j]];
        assert done + ([PageOf(cur)] + PagesFrom(lines[j + 1..], [lines[j]])) ==
          (done + [PageOf(cur)]) + PagesFrom(lines[j + 1..], [] + [lines[j]]);
        done := done + [PageOf(cur)];
        cur := [];
      }
      DrawnBelow(done, cur, lines[j]);
      doc.DrawText(Text(lines[j], Margin, y, FontSize));
      cur := cur + [lines[j]];
      y := y - LineHeight;
    }
  }

  /** An archive entry: its name and its bytes. */
  datatype Entry = Entry(name: string, data: Bytes)

  /** The entries laid out are the HTML documents, by name. */
  predicate IsContentEntry(e: Entry) {
    EndsWith(e.name, ".html") || EndsWith(e.name, ".xhtml") || EndsWith(e.name, ".htm")
  }

  /** The content files, in archive order. */
  function ContentFiles(entries: seq<Entry>): (r: seq<Entry>)
    ensures forall k :: 0 <= k < |r| ==> IsContentEntry(r[k]) && r[k] in entries
  {
    Filter(entries, IsContentEntry)
  }

  /** Exactly the content entries are laid out, and in the order the archive lists them. */
  lemma ContentFilesExactly(entries: seq<Entry>, e: Entry)
    ensures e in ContentFiles(entries) <==> e in entries && IsContentEntry(e)
    ensures IsSubsequence(ContentFiles(entries), entries)
  {
    if e in entries && IsContentEntry(e) {
      FilterKeepsPassing(entries, IsContentEntry, e);
    }
    FilterIsSubsequence(entries, IsContentEntry);
  }

  /**
   * How a content file is read: the body text of the parsed HTML (`textContent || ''`),
   * None when reading or parsing the entry throws; and the font lines are measured in.
   */
  datatype Reader = Reader(bodyText: Bytes -> Option<string>, font: Font)

  /** The words of `text` a file may still use when `total` words are spent. */
  function Budgeted(text: string, total: nat): (take: seq<string>)
    requires total < MaxWords
    ensures 1 <= |take| <= MaxWords - total && |take| <= |SplitWhitespace(text)|
    ensures take == SplitWhitespace(text)[..|take|]
    ensures |take| == |SplitWhitespace(text)| || |take| == MaxWords - total
  {
    var words := SplitWhitespace(text);
    words[..Min(|words|, MaxWords - total)]
  }

  /**
   * What one content file adds: its pages, and the word total after it. A file that cannot
   * be read or holds only white space is skipped; otherwise its words are charged to the
   * budget before wrapping, and a wrap that throws leaves the file without pages.
   */
  function FilePages(text: Option<string>, font: Font, total: nat): (r: (seq<Page>, nat))
    requires total < MaxWords
    ensures r.1 == Charged(text, total)
    ensures r.1 == total <==> text.None? || AllSpace(text.value)
    ensures r.1 == total ==> r.0 == []
    ensures r.1 > total ==> r.1 == Min(total + |SplitWhitespace(text.value)|, MaxWords)
    ensures r.1 > total && Wrap(Budgeted(text.value, total), font).None? ==> r.0 == []
    ensures r.1 > total && Wrap(Budgeted(text.value, total), font).Some? ==>
      var groups := Wrap(Budgeted(text.value, total), font).value;
      Drawn(r.0) == Lines(groups) && |r.0| == PageCount(|groups|) &&
      forall i :: 0 <= i < |r.0| ==> |r.0[i].marks| <= LinesPerPage
  {
    ChargeWords(text, total);
    if text.None? || AllSpace(text.value) then ([], total)
    else
      var take := Budgeted(text.value, total);
      var wrapped := Wrap(take, font);
      if wrapped.None? then ([], total + |take|)
      else
        PaginatedDrawsAll(Lines(wrapped.value));
        PaginatedPages(Lines(wrapped.value));
        (Paginated(Lines(wrapped.value)), total + |take|)
  }

  /** The word total after one file: its budgeted words are charged unless it is unreadable or blank. */
  function Charged(text: Option<string>, total: nat): (n: nat)
    requires total < MaxWords
    ensures total <= n <= MaxWords
  {
    if text.None? || AllSpace(text.value) then total else total + |Budgeted(text.value, total)|
  }

  /**
   * A file is charged words exactly when it is readable and not blank, and then all its
   * words or as many as the budget has left; a file charged nothing adds no pages.
   */
  lemma FileCharge(text: Option<string>, font: Font, total: nat)
    requires total < MaxWords
    ensures var r := FilePages(text, font, total);
      (r.1 == total <==> text.None? || Trim(text.value) == "") &&
      (r.1 == total ==> r.0 == []) &&
      (r.1 > total ==> r.1 == Min(total + |SplitWhitespace(text.value)|, MaxWords))
  {
    if text.Some? {
      AllSpaceIsTrimmedEmpty(text.value);
    }
    ChargeWords(text, total);
  }

  lemma ChargeWords(text: Option<string>, total: nat)
    requires total < MaxWords
    ensures Charged(text, total) == total <==> text.None? || AllSpace(text.value)
    ensures Charged(text, total) > total ==> Charged(text, total) == Min(total + |SplitWhitespace(text.value)|, MaxWords)
  {
  }

  /** A file that is laid out gets fresh pages, 48 lines to a page, showing its budgeted words in order. */
  lemma FileLaidOut(text: string, font: Font, total: nat)
    requires total < MaxWords && Trim(text) != ""
    requires Wrap(Budgeted(text, total), font).Some?
    ensures var groups := Wrap(Budgeted(text, total), font).value;
      var pages := FilePages(Some(text), font, total).0;
      Drawn(pages) == Lines(groups) && |pages| == PageCount(|groups|) &&
      Filter(Flatten(groups), IsWord) == Filter(Budgeted(text, total), IsWord) &&
      forall k :: 0 <= k < |groups| ==> GoodLine(font, groups[k])
  {
    AllSpaceIsTrimmedEmpty(text);
    var take := Budgeted(text, total);
    var groups := Wrap(take, font).value;
    PaginatedDrawsAll(Lines(groups));
    PaginatedPages(Lines(groups));
    WrapKeepsWords(take, font, []);
    WrapLinesFit(take, font, []);
    assert Filter([], IsWord) == [];
  }

  /** The pages of `files` laid out one after another, from a word total of `total`, until the budget is spent. */
  function BookFrom(files: seq<Entry>, reader: Reader, total: nat): (r: (seq<Page>, nat))
    requires total <= MaxWords
    ensures total <= r.1 <= MaxWords
    decreases |files|
  {
    if files == [] || total >= MaxWords then ([], total)
    else
      var f := FilePages(reader.bodyText(files[0].data), reader.font, total);
      var rest := BookFrom(files[1..], reader, f.1);
      (f.0 + rest.0, rest.1)
  }

  /**
   * `BookFrom` with the work on one file left abstract as `step`: the laws of chaining files
   * one after another hold whatever a single file does.
   */
  function Chain(files: seq<Entry>, text: Bytes -> Option<string>, step: (Option<string>, nat) -> (seq<Page>, nat), total: nat): (seq<Page>, nat)
    decreases |files|
  {
    if files == [] || total >= MaxWords then ([], total)
    else
      var f := step(text(files[0].data), total);
      var rest := Chain(files[1..], text, step, f.1);
      (f.0 + rest.0, rest.1)
  }

  lemma {:induction false} ChainAppend(a: seq<Entry>, b: seq<Entry>, text: Bytes -> Option<string>, step: (Option<string>, nat) -> (seq<Page>, nat), total: nat)
    ensures var ra := Chain(a, text, step, total);
      var rb := Chain(b, text, step, ra.1);
      Chain(a + b, text, step, total) == (ra.0 + rb.0, rb.1)
    decreases |a|
  {
    if a == [] {
      assert a + b == b;
      assert [] + Chain(b, text, step, total).0 == Chain(b, text, step, total).0;
    } else if total < MaxWords {
      var f := step(text(a[0].data), total);
      assert (a + b)[0] == a[0] && (a + b)[1..] == a[1..] + b;
      ChainAppend(a[1..], b, text, step, f.1);
      var ra' := Chain(a[1..], text, step, f.1);
      var rb := Chain(b, text, step, ra'.1);
      assert f.0 + (ra'.0 + rb.0) == (f.0 + ra'.0) + rb.0;
    } else {
      assert Chain(b, text, step, total) == ([], total);
      var none: seq<Page> := [];
      assert none + none == none;
    }
  }

  /** One file's work as a function value: `FilePages` while the budget lasts. */
  function FileStep(font: Font): (Option<string>, nat) -> (seq<Page>, nat) {
    (text: Option<string>, total: nat) => if total < MaxWords then FilePages(text, font, total) else ([], total)
  }

  lemma {:induction false} BookIsChain(files: seq<Entry>, reader: Reader, total: nat)
    requires total <= MaxWords
    ensures BookFrom(files, reader, total) == Chain(files, reader.bodyText, FileStep(reader.font), total)
    decreases |files|
  {
    if files != [] && total < MaxWords {
      var f := FilePages(reader.bodyText(files[0].data), reader.font, total);
      assert FileStep(reader.font)(reader.bodyText(files[0].data), total) == f;
      BookIsChain(files[1..], reader, f.1);
    }
  }

  /** Laying out `a + b` is laying out `a` and then `b` from where `a` left the word total. */
  lemma BookAppend(a: seq<Entry>, b: seq<Entry>, reader: Reader, total: nat)
    requires total <= MaxWords
    ensures var ra := BookFrom(a, reader, total);
      var rb := BookFrom(b, reader, ra.1);
      BookFrom(a + b, reader, total) == (ra.0 + rb.0, rb.1)
  {
    var step := FileStep(reader.font);
    BookIsChain(a + b, reader, total);
    BookIsChain(a, reader, total);
    BookIsChain(b, reader, BookFrom(a, reader, total).1);
    ChainAppend(a, b, reader.bodyText, step, total);
  }

  /** Once the files before have spent the whole budget, no later file adds a page or a word. */
  lemma BudgetSpent(a: seq<Entry>, b: seq<Entry>, reader: Reader)
    requires BookFrom(a, reader, 0).1 == MaxWords
    ensures BookFrom(a + b, reader, 0) == BookFrom(a, reader, 0)
  {
    BookAppend(a, b, reader, 0);
    assert BookFrom(b, reader, MaxWords) == ([], MaxWords);
    assert BookFrom(a, reader, 0).0 + [] == BookFrom(a, reader, 0).0;
  }

  /** A file that adds no pages, because it is blank, unreadable or cannot be measured, does not stop the files after it. */
  lemma {:induction false} SkippedFile(f: Entry, rest: seq<Entry>, reader: Reader, total: nat)
    requires total < MaxWords
    requires FilePages(reader.bodyText(f.data), reader.font, total).0 == []
    ensures BookFrom([f] + rest, reader, total) == BookFrom(rest, reader, FilePages(reader.bodyText(f.data), reader.font, total).1)
  {
    assert ([f] + rest)[1..] == rest;
    assert [] + BookFrom(rest, reader, FilePages(reader.bodyText(f.data), reader.font, total).1).0 ==
      BookFrom(rest, reader, FilePages(reader.bodyText(f.data), reader.font, total).1).0;
  }

  /**
   * One content file of the loop: a readable, non-blank file is charged its words, and
   * when they can be measured they are wrapped and set from a fresh page.
   */
  method LayOutFile(doc: Document, text: Option<string>, font: Font, total: nat) returns (totalWords: nat)
    requires total < MaxWords
    modifies doc
    ensures totalWords == FilePages(text, font, total).1
    ensures doc.pages == old(doc.pages) + FilePages(text, font, total).0
  {
    totalWords := total;
    if text.Some? && !AllSpace(text.value) {
      var words := SplitWhitespace(text.value);
      var remaining := MaxWords - totalWords;
      var take := words[..Min(|words|, remaining)];
      assert take == Budgeted(text.value, total);
      totalWords := totalWords + |take|;
      var ok, lines := WrapWords(take, font);
      if ok {
        LayOutLines(doc, lines);
      } else {
        assert doc.pages == old(doc.pages) + [];
      }
    } else {
      assert doc.pages == old(doc.pages) + [];
    }
  }

  /** The loop has laid out `laid` for the files before `i` and reached the word total `total`. */
  ghost predicate BookSoFar(files: seq<Entry>, reader: Reader, i: nat, total: nat, laid: seq<Page>)
    requires i <= |files| && total <= MaxWords
  {
    BookFrom(files, reader, 0).0 == laid + BookFrom(files[i..], reader, total).0 &&
    BookFrom(files, reader, 0).1 == BookFrom(files[i..], reader, total).1
  }

  /** The loop over the content files, until the files or the word budget run out. */
  method LayOutBook(doc: Document, files: seq<Entry>, reader: Reader) returns (totalWords: nat)
    modifies doc
    ensures totalWords == BookFrom(files, reader, 0).1 && totalWords <= MaxWords
    ensures doc.pages == old(doc.pages) + BookFrom(files, reader, 0).0
  {
    totalWords := 0;
    ghost var laid: seq<Page> := [];
    var i := 0;
    BookStart(files, reader);
    while i < |files| && totalWords < MaxWords
      invariant 0 <= i <= |files| && totalWords <= MaxWords
      invariant doc.pages == old(doc.pages) + laid
      invariant BookSoFar(files, reader, i, totalWords, laid)
    {
      ghost var f := FilePages(reader.bodyText(files[i].data), reader.font, totalWords);
      BookStep(files, reader, i, totalWords, laid);
      ghost var pages := doc.pages;
      totalWords := LayOutFile(doc, reader.bodyText(files[i].data), reader.font, totalWords);
      Regroup(doc.pages, pages, old(doc.pages), laid, f.0, laid + f.0);
      laid := laid + f.0;
      i := i + 1;
    }
    BookEnd(files, reader, i, totalWords, laid);
  }

  lemma BookStart(files: seq<Entry>, reader: Reader)
    ensures BookSoFar(files, reader, 0, 0, [])
  {
    assert files[0..] == files;
    assert [] + BookFrom(files, reader, 0).0 == BookFrom(files, reader, 0).0;
  }

  /** One more file of the loop: its pages follow those laid so far. */
  lemma BookStep(files: seq<Entry>, reader: Reader, i: nat, total: nat, laid: seq<Page>)
    requires i < |files| && total < MaxWords
    requires BookSoFar(files, reader, i, total, laid)
    ensures var f := FilePages(reader.bodyText(files[i].data), reader.font, total);
      BookSoFar(files, reader, i + 1, f.1, laid + f.0)
  {
    var f := FilePages(reader.bodyText(files[i].data), reader.font, total);
    var rest := BookFrom(files[i + 1..], reader, f.1);
    assert files[i..][1..] == files[i + 1..];
    assert BookFrom(files[i..], reader, total) == (f.0 + rest.0, rest.1);
    assert laid + (f.0 + rest.0) == (laid + f.0) + rest.0;
  }

  /** When the loop stops, everything has been laid out. */
  lemma BookEnd(files: seq<Entry>, reader: Reader, i: nat, total: nat, laid: seq<Page>)
    requires i <= |files| && total <= MaxWords
    requires i == |files| || total >= MaxWords
    requires BookSoFar(files, reader, i, total, laid)
    ensures BookFrom(files, reader, 0) == (laid, total)
  {
    assert BookFrom(files[i..], reader, total) == ([], total);
    assert laid + [] == laid;
  }

  /** The three fields read from the package document. */
  datatype MetaField = Title | Creator | Language

  /** The title, creator and language of the book, each absent when not found. */
  datatype Metadata = Metadata(title: Option<string>, creator: Option<string>, language: Option<string>)

  const NoMetadata := Metadata(None, None, None)

  /** The package document is the entry named `*.opf`. */
  predicate IsPackage(e: Entry) {
    EndsWith(e.name, ".opf")
  }

  /** The index of the first package document among `entries`. */
  function FirstPackage(entries: seq<Entry>): (r: Option<nat>)
    ensures r.Some? ==> r.value < |entries| && IsPackage(entries[r.value])
    ensures r.Some? ==> forall k :: 0 <= k < r.value ==> !IsPackage(entries[k])
    ensures r.None? ==> forall k :: 0 <= k < |entries| ==> !IsPackage(entries[k])
    decreases |entries|
  {
    if entries == [] then None
    else if IsPackage(entries[0]) then Some(0)
    else
      var rest := FirstPackage(entries[1..]);
      if rest.None? then None else Some(rest.value + 1)
  }

  /** `?.textContent || undefined`: a missing element and an empty text both leave the field absent. */
  function FieldValue(text: Option<string>): (r: Option<string>)
    ensures r.Some? <==> text.Some? && text.value != ""
    ensures r.Some? ==> r == text
  {
    if text.Some? && text.value != "" then text else None
  }

  /**
   * The metadata of an archive: from the first package document, when there is one, each
   * field the text of the first matching element (`dc:title` or `title`, and so on).
   */
  function MetadataOf(entries: seq<Entry>, field: (Bytes, MetaField) -> Option<string>): (m: Metadata)
    ensures FirstPackage(entries).None? ==> m == NoMetadata
    ensures FirstPackage(entries).Some? ==>
      var d := entries[FirstPackage(entries).value].data;
      m == Metadata(FieldValue(field(d, Title)), FieldValue(field(d, Creator)), FieldValue(field(d, Language)))
  {
    var i := FirstPackage(entries);
    if i.None? then NoMetadata
    else
      var d := entries[i.value].data;
      Metadata(FieldValue(field(d, Title)), FieldValue(field(d, Creator)), FieldValue(field(d, Language)))
  }

  /**
   * The library calls the conversion relies on: the MD5 hex digest of a string, reading
   * the entries of a zip archive (None when the bytes are not one), the element text of
   * a metadata field in a package document, the body text and font of content files,
   * and the PDF codec.
   */
  datatype Converter = Converter(
    hash: string -> string,
    unzip: Bytes -> Option<seq<Entry>>,
    field: (Bytes, MetaField) -> Option<string>,
    reader: Reader,
    codec: Codec)

  /**
   * What a conversion returns: the output path relative to the working directory, as
   * text and as the entry it names, and the metadata.
   */
  datatype Converted = Converted(pdfPath: string, pdfFile: Path, metadata: Metadata)

  /** `docs/tmp`, where conversions are stored. */
  const TmpDir: Path := ["docs", "tmp"]

  /** The output file for an input path whose digest is `hash`. */
  function OutputFile(hash: string): (p: Path)
    ensures p != [] && Parent(p) == TmpDir
  {
    TmpDir + [hash + ".pdf"]
  }

  function OutputPath(hash: string): string {
    "docs/tmp/" + hash + ".pdf"
  }

  /** The pages an archive's entries are laid out on. */
  function BookOf(entries: seq<Entry>, reader: Reader): seq<Page> {
    BookFrom(ContentFiles(entries), reader, 0).0
  }

  /** The entries of the archive stored at `epubFile`, None when there is no such file or it is no zip archive. */
  function Archive(nodes: map<Path, Node>, epubFile: Path, c: Converter): Option<seq<Entry>> {
    if IsFile(nodes, epubFile) then c.unzip(nodes[epubFile].data) else None
  }

  /**
   * `convertEPUBtoPDF(epubPath)` for the file `epubFile`, named to it by its full path:
   * a conversion stored under the digest of that path is reused; otherwise `docs/tmp` is
   * made sure of, the archive is laid out, saved under that name, and its metadata read.
   * Every failure is an error, leaving the disk with at most the new directories.
   */
  method ConvertEpubToPdf(disk: Disk, epubFile: Path, c: Converter) returns (r: Result<Converted>)
    requires disk.Valid()
    modifies disk
    ensures disk.Valid()
    ensures var hash := c.hash(Staging.FullPath(disk.cwd, epubFile));
      r.Ok? ==> r.value.pdfPath == OutputPath(hash) && r.value.pdfFile == OutputFile(hash) && OutputFile(hash) in disk.nodes
    ensures var hash := c.hash(Staging.FullPath(disk.cwd, epubFile));
      OutputFile(hash) in old(disk.nodes) ==> r == Ok(Converted(OutputPath(hash), OutputFile(hash), NoMetadata)) && disk.nodes == old(disk.nodes)
    ensures var hash := c.hash(Staging.FullPath(disk.cwd, epubFile));
      var made := Staging.Ensure(old(disk.nodes), TmpDir);
      var archive := Archive(old(disk.nodes), epubFile, c);
      OutputFile(hash) !in old(disk.nodes) ==>
        (r.Ok? <==> IsDirectory(made, TmpDir) && archive.Some?) &&
        (r.Err? ==> disk.nodes == made) &&
        (r.Ok? ==> disk.nodes == made[OutputFile(hash) := File(c.codec.save(BookOf(archive.value, c.reader)))] &&
                   r.value.metadata == MetadataOf(archive.value, c.field))
  {
    var hash := c.hash(Staging.FullPath(disk.cwd, epubFile));
    var pdfPath := OutputPath(hash);
    var pdfFile := OutputFile(hash);
    if disk.Exists(pdfFile) {
      return Ok(Converted(pdfPath, pdfFile, NoMetadata));
    }
    ghost var before := disk.nodes;
    var dir := Staging.EnsureDirectoryExists(disk, TmpDir);
    if dir.Err? {
      assert !IsDirectory(disk.nodes, TmpDir);
      return Err(dir.error);
    }
    assert IsFile(disk.nodes, epubFile) <==> IsFile(before, epubFile);
    var data := disk.Read(epubFile);
    if data.None? {
      return Err("cannot read " + Staging.FullPath(disk.cwd, epubFile));
    }
    var entries := c.unzip(data.value);
    if entries.None? {
      return Err("not a zip archive");
    }
    assert entries == Archive(before, epubFile, c);
    var doc := new Document();
    var _ := LayOutBook(doc, ContentFiles(entries.value), c.reader);
    assert doc.pages == BookOf(entries.value, c.reader);
    var bytes := c.codec.save(doc.pages);
    var ok := disk.Write(pdfFile, bytes);
    if !ok {
      return Err("cannot write " + pdfPath);
    }
    r := Ok(Converted(pdfPath, pdfFile, MetadataOf(entries.value, c.field)));
  }
}
