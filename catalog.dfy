/**
 * The catalog file parser of `load_matti_from_file`: one `<name>,<points>`
 * entry per line. Lines are stripped and blank ones dropped; a line without a
 * comma, or whose text after the first comma is not an integer, is skipped;
 * of several lines with the same name only the first is kept.
 */
module Catalog {
  import opened Wrappers
  import opened Text

  /** One parsed line: a target's name and its point value. */
  datatype Entry = Entry(name: string, points: int)

  /** The position of the first `c` in `s`, if `c` occurs at all. */
  function IndexOf(s: string, c: char): (r: Option<nat>)
    ensures r.None? <==> c !in s
    ensures r.Some? ==> r.value < |s| && s[r.value] == c && c !in s[..r.value]
  {
    if s == [] then None
    else if s[0] == c then Some(0)
    else
      match IndexOf(s[1..], c)
      case None => None
      case Some(k) =>
        assert s[1..][..k] == s[1..k + 1];
        Some(k + 1)
  }

  /** `ln.split(',', 1)`: the text before the first comma and the text after
    * it, or `None` for a line without a comma. */
  function SplitAtComma(ln: string): (r: Option<(string, string)>)
    ensures r.None? <==> ',' !in ln
    ensures r.Some? ==> ln == r.value.0 + [','] + r.value.1 && ',' !in r.value.0
  {
    match IndexOf(ln, ',')
    case None => None
    case Some(k) =>
      assert ln == ln[..k] + [','] + ln[k + 1..];
      Some((ln[..k], ln[k + 1..]))
  }

  /** A slice of a string without `c` has no `c` either. */
  lemma NotInSlice(s: string, c: char, i: int, j: int)
    requires 0 <= i <= j <= |s| && c !in s
    ensures c !in s[i..j]
  {
    forall k | 0 <= k < j - i ensures s[i..j][k] != c {
      assert s[i..j][k] == s[i + k];
    }
  }

  /** One stripped, non-blank line: the stripped text before the first comma
    * and the integer after it. A line without a comma, or whose stripped text
    * after the first comma is not an integer `int()` reads, is skipped. A
    * parsed name is stripped and holds no comma. */
  function ParseLine(ln: string): (r: Option<Entry>)
    ensures r.Some? ==> ',' in ln
    ensures r.Some? <==> SplitAtComma(ln).Some? && ParseInt(Strip(SplitAtComma(ln).value.1)).Some?
    ensures r.Some? ==> r.value.name == Strip(SplitAtComma(ln).value.0)
                        && Some(r.value.points) == ParseInt(Strip(SplitAtComma(ln).value.1))
    ensures r.Some? ==> ',' !in r.value.name && Strip(r.value.name) == r.value.name
  {
    match SplitAtComma(ln)
    case None => None
    case Some((before, after)) =>
      match ParseInt(Strip(after))
      case None => None
      case Some(pts) =>
        var name := Strip(before);
        StripIdempotent(before);
        StripShape(before);
        NotInSlice(before, ',', Lead(before), Lead(before) + |name|);
        Some(Entry(name, pts))
  }

  /** The catalog file's line format for one entry. */
  function Render(e: Entry): string {
    e.name + "," + ShowInt(e.points)
  }

  /** The first `c` of `a + [c] + b` is at `|a|` when `a` has none. */
  lemma {:induction false} IndexOfAfter(a: string, c: char, b: string)
    requires c !in a
    ensures IndexOf(a + [c] + b, c) == Some(|a|)
  {
    if a != [] {
      IndexOfAfter(a[1..], c, b);
      assert (a + [c] + b)[1..] == a[1..] + [c] + b;
    }
  }

  /** A name the parser can read back: no comma, and no whitespace at
    * either end (so `strip()` leaves it as it is). */
  predicate CleanName(n: string) {
    ',' !in n && (n == [] || (!IsSpace(n[0]) && !IsSpace(n[|n| - 1])))
  }

  /** A rendered line splits at the comma after the name. */
  lemma SplitRender(e: Entry)
    requires ',' !in e.name
    ensures SplitAtComma(Render(e)) == Some((e.name, ShowInt(e.points)))
  {
    var ln := Render(e);
    var digits := ShowInt(e.points);
    assert ln == e.name + [','] + digits;
    IndexOfAfter(e.name, ',', digits);
    assert ln[..|e.name|] == e.name;
    assert ln[|e.name| + 1..] == digits;
  }

  /** A rendered integer is its own `strip()`. */
  lemma StripShowInt(n: int)
    ensures Strip(ShowInt(n)) == ShowInt(n)
  {
    var digits := ShowInt(n);
    assert IsDigit(digits[|digits| - 1]);
    assert !IsSpace(digits[0]);
    StripUnchanged(digits);
  }

  /** An entry the parser reads back from its rendered line: a clean name,
    * and points whose digits `int()` converts. */
  predicate Readable(e: Entry) {
    CleanName(e.name) && DigitCount(e.points) <= MaxStrDigits
  }

  /** Every entry whose name is clean reads back from its rendered line,
    * unless its points have more digits than `int()` converts; such a line
    * is skipped. */
  lemma ParseRender(e: Entry)
    requires CleanName(e.name)
    ensures ParseLine(Render(e)) == if DigitCount(e.points) <= MaxStrDigits then Some(e) else None
  {
    SplitRender(e);
    StripUnchanged(e.name);
    StripShowInt(e.points);
    ParseShowInt(e.points);
  }

  // ---------------------------------------------------------------------------
  // The whole file

  /** `[ln.strip() for ln in f if ln.strip()]`. */
  function NonBlank(lines: seq<string>): (r: seq<string>)
    ensures |r| <= |lines|
    ensures forall i :: 0 <= i < |r| ==> r[i] != [] && Strip(r[i]) == r[i]
  {
    if lines == [] then []
    else
      var s := Strip(lines[|lines| - 1]);
      StripIdempotent(lines[|lines| - 1]);
      NonBlank(lines[..|lines| - 1]) + (if s == [] then [] else [s])
  }

  /** The present values of `os`, in order. */
  function Somes<T>(os: seq<Option<T>>): seq<T> {
    if os == [] then []
    else Somes(os[..|os| - 1]) + match os[|os| - 1] case None => [] case Some(x) => [x]
  }

  /** What each line parses to. */
  function ParseEach(ls: seq<string>): (r: seq<Option<Entry>>)
    ensures |r| == |ls|
  {
    if ls == [] then [] else ParseEach(ls[..|ls| - 1]) + [ParseLine(ls[|ls| - 1])]
  }

  lemma {:induction false} ParseEachAt(ls: seq<string>, i: int)
    requires 0 <= i < |ls|
    ensures ParseEach(ls)[i] == ParseLine(ls[i])
  {
    if i < |ls| - 1 {
      ParseEachAt(ls[..|ls| - 1], i);
    }
  }

  /** The entries of the well-formed lines, in input order, repeats included. */
  function Candidates(ls: seq<string>): seq<Entry> {
    Somes(ParseEach(ls))
  }

  function Names(es: seq<Entry>): set<string> {
    set e | e in es :: e.name
  }

  /** The entries whose name has not occurred before them. */
  function FirstByName(es: seq<Entry>): seq<Entry> {
    if es == [] then []
    else
      var prev := FirstByName(es[..|es| - 1]);
      var e := es[|es| - 1];
      if e.name in Names(prev) then prev else prev + [e]
  }

  /** The index of the first entry named `n`. */
  function FirstIndex(es: seq<Entry>, n: string): (r: nat)
    requires n in Names(es)
    ensures r < |es| && es[r].name == n
    ensures forall j :: 0 <= j < r ==> es[j].name != n
  {
    var init := es[..|es| - 1];
    if n in Names(init) then
      var k := FirstIndex(init, n);
      assert es[k] == init[k];
      k
    else
      assert forall j :: 0 <= j < |init| ==> init[j].name != n by {
        forall j | 0 <= j < |init| ensures init[j].name != n { assert init[j] in init; }
      }
      |es| - 1
  }

  lemma NamesSnoc(es: seq<Entry>, e: Entry)
    ensures Names(es + [e]) == Names(es) + {e.name}
  {
    forall x | x in Names(es + [e]) ensures x in Names(es) + {e.name} {
      var y :| y in es + [e] && y.name == x;
      if y != e { assert y in es; }
    }
    forall x | x in Names(es) ensures x in Names(es + [e]) {
      var y :| y in es && y.name == x;
      assert y in es + [e];
    }
  }

  lemma FirstByNameSnoc(es: seq<Entry>, e: Entry)
    ensures FirstByName(es + [e])
            == if e.name in Names(FirstByName(es)) then FirstByName(es) else FirstByName(es) + [e]
  {
    assert (es + [e])[..|es|] == es;
  }

  lemma CandidatesSnoc(ls: seq<string>, ln: string)
    ensures Candidates(ls + [ln])
            == Candidates(ls) + match ParseLine(ln) case None => [] case Some(e) => [e]
  {
    assert (ls + [ln])[..|ls|] == ls;
  }

  /** What the parser returns for the lines of a file. */
  function Parsed(lines: seq<string>): seq<Entry> {
    FirstByName(Candidates(NonBlank(lines)))
  }

  /** First occurrence wins: the result holds exactly the names of `es`, each
    * entry is the first one with its name, and the entries keep the order in
    * which their names first occur. */
  ghost predicate FirstsOf(r: seq<Entry>, es: seq<Entry>) {
    && Names(r) == Names(es)
    && (forall k :: 0 <= k < |r| ==> r[k] == es[FirstIndex(es, r[k].name)])
    && (forall k, l :: 0 <= k < l < |r| ==> FirstIndex(es, r[k].name) < FirstIndex(es, r[l].name))
  }

  lemma FirstIndexSnoc(es: seq<Entry>, e: Entry, n: string)
    requires n in Names(es + [e])
    ensures n in Names(es) ==> FirstIndex(es + [e], n) == FirstIndex(es, n)
    ensures n !in Names(es) ==> FirstIndex(es + [e], n) == |es|
  {
    assert (es + [e])[..|es|] == es;
  }

  lemma {:induction false} FirstByNameSpec(es: seq<Entry>)
    ensures FirstsOf(FirstByName(es), es)
  {
    if es != [] {
      var init := es[..|es| - 1];
      var e := es[|es| - 1];
      assert es == init + [e];
      var prev := FirstByName(init);
      FirstByNameSpec(init);
      FirstByNameSnoc(init, e);
      NamesSnoc(init, e);
      forall k | 0 <= k < |prev|
        ensures FirstIndex(es, prev[k].name) == FirstIndex(init, prev[k].name)
        ensures prev[k] == es[FirstIndex(es, prev[k].name)]
      {
        FirstIndexSnoc(init, e, prev[k].name);
      }
      if e.name !in Names(prev) {
        NamesSnoc(prev, e);
        FirstIndexSnoc(init, e, e.name);
      }
    }
  }

  /** The parsed names are pairwise distinct, so the catalog's UNIQUE
    * constraint on names holds for what the reload inserts. */
  lemma ParsedNamesDistinct(lines: seq<string>)
    ensures forall k, l :: 0 <= k < l < |Parsed(lines)| ==> Parsed(lines)[k].name != Parsed(lines)[l].name
  {
    var c := Candidates(NonBlank(lines));
    var r := Parsed(lines);
    FirstByNameSpec(c);
    forall k, l | 0 <= k < l < |r| ensures r[k].name != r[l].name {
      assert FirstIndex(c, r[k].name) < FirstIndex(c, r[l].name);
    }
  }

  /** The parser returns, in input order, the first well-formed entry of
    * every name that has one, and nothing else. */
  lemma ParsedIsFirstOfEachName(lines: seq<string>)
    ensures FirstsOf(Parsed(lines), Candidates(NonBlank(lines)))
  {
    FirstByNameSpec(Candidates(NonBlank(lines)));
  }

  lemma {:induction false} SomesSound<T>(os: seq<Option<T>>)
    ensures forall x :: x in Somes(os) ==> exists i :: 0 <= i < |os| && os[i] == Some(x)
  {
    if os != [] {
      var init := os[..|os| - 1];
      SomesSound(init);
      forall x | x in Somes(os) ensures exists i :: 0 <= i < |os| && os[i] == Some(x) {
        if x in Somes(init) {
          var i :| 0 <= i < |init| && init[i] == Some(x);
          assert os[i] == init[i];
        } else {
          assert os[|os| - 1] == Some(x);
        }
      }
    }
  }

  lemma {:induction false} SomesComplete<T>(os: seq<Option<T>>)
    ensures forall i :: 0 <= i < |os| && os[i].Some? ==> os[i].value in Somes(os)
  {
    if os != [] {
      var init := os[..|os| - 1];
      SomesComplete(init);
      forall i | 0 <= i < |os| && os[i].Some? ensures os[i].value in Somes(os) {
        if i < |init| { assert os[i] == init[i]; }
      }
    }
  }

  /** Every candidate entry comes from a well-formed line, and every
    * well-formed line yields a candidate entry; a line without a comma, or
    * with a non-integer after its first comma, yields none. */
  lemma CandidatesFromLines(ls: seq<string>)
    ensures forall e :: e in Candidates(ls) <==> exists i :: 0 <= i < |ls| && ParseLine(ls[i]) == Some(e)
  {
    SomesSound(ParseEach(ls));
    SomesComplete(ParseEach(ls));
    forall i | 0 <= i < |ls| ensures ParseEach(ls)[i] == ParseLine(ls[i]) {
      ParseEachAt(ls, i);
    }
  }

  /** The candidates of a file are the entries of its non-blank lines, each
    * line stripped before it is parsed. */
  lemma CandidatesFromFile(lines: seq<string>)
    ensures forall e :: e in Candidates(NonBlank(lines)) <==>
              exists i :: 0 <= i < |lines| && Strip(lines[i]) != [] && ParseLine(Strip(lines[i])) == Some(e)
  {
    var ls := NonBlank(lines);
    CandidatesFromLines(ls);
    NonBlankMembers(lines);
    forall e | e in Candidates(ls)
      ensures exists i :: 0 <= i < |lines| && Strip(lines[i]) != [] && ParseLine(Strip(lines[i])) == Some(e)
    {
      var k :| 0 <= k < |ls| && ParseLine(ls[k]) == Some(e);
      assert ls[k] in ls;
    }
    forall e | exists i :: 0 <= i < |lines| && Strip(lines[i]) != [] && ParseLine(Strip(lines[i])) == Some(e)
      ensures e in Candidates(ls)
    {
      var i :| 0 <= i < |lines| && Strip(lines[i]) != [] && ParseLine(Strip(lines[i])) == Some(e);
      var x := Strip(lines[i]);
      assert x in ls;
      var k :| 0 <= k < |ls| && ls[k] == x;
    }
  }

  lemma NonBlankSnoc(lines: seq<string>, ln: string)
    ensures NonBlank(lines + [ln]) == NonBlank(lines) + if Strip(ln) == [] then [] else [Strip(ln)]
  {
    assert (lines + [ln])[..|lines|] == lines;
  }

  /** A one-line file keeps its line stripped, unless it is blank. */
  lemma NonBlankOfLine(ln: string)
    ensures NonBlank([ln]) == if Strip(ln) == [] then [] else [Strip(ln)]
  {
    NonBlankSnoc([], ln);
  }

  /** The filter works line by line: the kept lines of two files one after
    * the other are those of the first followed by those of the second. With
    * `NonBlankOfLine` this fixes the kept lines and their order. */
  lemma {:induction false} NonBlankAppend(a: seq<string>, b: seq<string>)
    ensures NonBlank(a + b) == NonBlank(a) + NonBlank(b)
    decreases |b|
  {
    if b == [] {
      assert a + b == a;
    } else {
      var init, ln := b[..|b| - 1], b[|b| - 1];
      assert b == init + [ln];
      assert a + b == (a + init) + [ln];
      NonBlankAppend(a, init);
      NonBlankSnoc(a + init, ln);
      NonBlankSnoc(init, ln);
    }
  }

  /** The kept lines are exactly the file's lines that are not blank, each
    * stripped. */
  lemma {:induction false} NonBlankMembers(lines: seq<string>)
    ensures forall x :: x in NonBlank(lines) <==> exists i :: 0 <= i < |lines| && x == Strip(lines[i]) && x != []
  {
    if lines != [] {
      var init, ln := lines[..|lines| - 1], lines[|lines| - 1];
      assert lines == init + [ln];
      NonBlankMembers(init);
      NonBlankSnoc(init, ln);
      forall x | x in NonBlank(lines) ensures exists i :: 0 <= i < |lines| && x == Strip(lines[i]) && x != [] {
        if x in NonBlank(init) {
          var i :| 0 <= i < |init| && x == Strip(init[i]) && x != [];
          assert lines[i] == init[i];
        } else {
          assert x == Strip(lines[|lines| - 1]) && x != [];
        }
      }
      forall x | exists i :: 0 <= i < |lines| && x == Strip(lines[i]) && x != [] ensures x in NonBlank(lines) {
        var i :| 0 <= i < |lines| && x == Strip(lines[i]) && x != [];
        if i < |init| {
          assert init[i] == lines[i];
        }
      }
    }
  }

  /** A rendered entry is a stripped, non-blank line. */
  lemma RenderStripped(e: Entry)
    requires CleanName(e.name)
    ensures Render(e) != [] && Strip(Render(e)) == Render(e)
  {
    var ln := Render(e);
    var digits := ShowInt(e.points);
    assert ln == e.name + [','] + digits;
    assert !IsSpace(ln[|ln| - 1]) by { assert IsDigit(digits[|digits| - 1]); }
    if e.name != [] { assert ln[0] == e.name[0]; }
    StripUnchanged(ln);
  }

  /** The lines of a catalog file written from `es`, one entry per line. */
  function RenderAll(es: seq<Entry>): (r: seq<string>)
    ensures |r| == |es|
  {
    if es == [] then [] else RenderAll(es[..|es| - 1]) + [Render(es[|es| - 1])]
  }

  lemma {:induction false} NonBlankRenderAll(es: seq<Entry>)
    requires forall i :: 0 <= i < |es| ==> CleanName(es[i].name)
    ensures NonBlank(RenderAll(es)) == RenderAll(es)
  {
    if es != [] {
      var init := es[..|es| - 1];
      var e := es[|es| - 1];
      NonBlankRenderAll(init);
      RenderStripped(e);
      NonBlankSnoc(RenderAll(init), Render(e));
    }
  }

  lemma CandidatesSnocSome(ls: seq<string>, ln: string, e: Entry)
    requires ParseLine(ln) == Some(e)
    ensures Candidates(ls + [ln]) == Candidates(ls) + [e]
  {
    CandidatesSnoc(ls, ln);
  }

  lemma CandidatesSnocNone(ls: seq<string>, ln: string)
    requires ParseLine(ln).None?
    ensures Candidates(ls + [ln]) == Candidates(ls)
  {
    CandidatesSnoc(ls, ln);
  }

  lemma {:induction false} CandidatesRenderAll(es: seq<Entry>)
    requires forall i :: 0 <= i < |es| ==> Readable(es[i])
    ensures Candidates(RenderAll(es)) == es
  {
    if es != [] {
      var init := es[..|es| - 1];
      var e := es[|es| - 1];
      assert es == init + [e];
      CandidatesRenderAll(init);
      ParseRender(e);
      CandidatesSnocSome(RenderAll(init), Render(e), e);
    }
  }

  /** Reading back a file written from readable entries yields the first
    * entry of every name, in the order the names first occur. */
  lemma ParsedRenderAll(es: seq<Entry>)
    requires forall i :: 0 <= i < |es| ==> Readable(es[i])
    ensures Parsed(RenderAll(es)) == FirstByName(es)
  {
    NonBlankRenderAll(es);
    CandidatesRenderAll(es);
  }

  lemma FirstByNameOfThree(x: Entry, y: Entry, z: Entry)
    requires x.name == y.name && z.name != x.name
    ensures FirstByName([x, y, z]) == [x, z]
  {
    FirstByNameSnoc([], x);
    assert [] + [x] == [x];
    assert FirstByName([x]) == [x];
    NamesSnoc([], x);
    assert Names([x]) == {x.name};
    FirstByNameSnoc([x], y);
    assert [x] + [y] == [x, y];
    assert FirstByName([x, y]) == [x];
    FirstByNameSnoc([x, y], z);
    assert [x, y] + [z] == [x, y, z];
  }

  /** Of two lines with the same name the later one is dropped: for a file of
    * three entries whose first two share a name, as in the catalog
    * ("A,10", "A,5", "B,3"), the result is the first and the third. */
  lemma LaterDuplicateDropped(x: Entry, y: Entry, z: Entry)
    requires Readable(x) && Readable(y) && Readable(z)
    requires x.name == y.name && z.name != x.name
    ensures Parsed(RenderAll([x, y, z])) == [x, z]
  {
    var es := [x, y, z];
    assert forall i :: 0 <= i < |es| ==> Readable(es[i]);
    ParsedRenderAll(es);
    FirstByNameOfThree(x, y, z);
  }

  /** `load_matti_from_file`'s parsing loop: it grows `parsed` and the set
    * `seen_names` line by line. */
  method ParseCatalog(lines: seq<string>) returns (parsed: seq<Entry>)
    ensures parsed == Parsed(lines)
  {
    var ls := NonBlank(lines);
    parsed := [];
    var seen: set<string> := {};
    assert ls[..0] == [];
    assert Names([]) == {};
    for i := 0 to |ls|
      invariant parsed == FirstByName(Candidates(ls[..i]))
      invariant seen == Names(parsed)
    {
      var c := Candidates(ls[..i]);
      var ln := ls[i];
      assert ls[..i + 1] == ls[..i] + [ln];
      match SplitAtComma(ln) {
        case None =>
          // no comma: skipped
          CandidatesSnocNone(ls[..i], ln);
        case Some((before, after)) =>
          var name := Strip(before);
          match ParseInt(Strip(after)) {
            case None =>
              // ValueError: skipped
              CandidatesSnocNone(ls[..i], ln);
            case Some(pts) =>
              var e := Entry(name, pts);
              CandidatesSnocSome(ls[..i], ln, e);
              FirstByNameSnoc(c, e);
              if name !in seen {
                NamesSnoc(parsed, e);
                parsed := parsed + [e];
                seen := seen + {name};
              }
          }
      }
    }
    assert ls[..|ls|] == ls;
  }
}
