/** The string layer of `handlers.py`: what happens to the texts once they
    have been pulled out of a page of umma.ru. The HTTP requests, the HTML
    parser and the verse lookup at quran-online.ru are inputs here. */
module Handlers {
  import opened Wrappers
  import opened PyStr

  /** The `_type` of a post. Every string other than "ayah" and "hadith"
      takes the dua branch, so `Dua` stands for all of them. */
  datatype Kind = Ayah | Hadith | Dua

  /** The exceptions the handlers let escape. */
  datatype Error =
    | MissingLink          // `KeyError` from `links[...]`
    | UnboundHeader        // `UnboundLocalError`: the hadith branch falls through
    | NoElement            // `IndexError` from `soup.select('article div')[0]`
    | LabelUnpack          // `ValueError` from `surah, ayah = pointer.split(":")`

  const BASE_URL := "https://umma.ru"
  const SEE_ALSO := " См."
  const SVOD := "Свод хадисов"
  const ABBR_LOWER := "св. х."
  const ABBR_UPPER := "Св. х."
  const SEMI := "; "
  const SEMI_BREAK := ";\n"
  const QURAN_REF := "Св. Коран, "
  const OTHER_DUAS := "Смотрите другие дуа на разные случаи"
  const SIGNATURE := "©\U{FE0F}*Твой Проповедник*"

  // ---------------------------------------------------------------------
  // Hadith citation: source_text_pattern

  /** Both spellings of the abbreviation "св. х." spelled out. */
  function ExpandAbbreviations(t: string): string
  {
    ReplaceAll(ReplaceAll(t, ABBR_LOWER, SVOD), ABBR_UPPER, SVOD)
  }

  /** Everything `source_text_pattern` does after the cut. */
  function Readable(cut: string): string
  {
    Strip(ReplaceAll(ExpandAbbreviations(cut), SEMI, SEMI_BREAK))
  }

  /** A normalised citation: no abbreviation, no "; " separator, and no
      whitespace at either end. */
  predicate Clean(r: string)
  {
    !Contains(r, ABBR_LOWER) && !Contains(r, ABBR_UPPER) && !Contains(r, SEMI) && Stripped(r)
  }

  /** `source_text_pattern` as written: the text is cut at the index `find`
      reports, which is -1 when " См." is missing, so that the slice then
      drops the last character. */
  function SourceTextPattern(text: string): (r: string)
    ensures Clean(r)
    ensures !Contains(r, SEE_ALSO)
  {
    var cut := Slice(text, 0, Find(text, SEE_ALSO));
    CutHasNoSeeAlso(text);
    ReadableClean(cut);
    Readable(cut)
  }

  /** `source_text_pattern` with the cut made only when " См." is present. */
  function SourceTextPatternFixed(text: string): (r: string)
    ensures Clean(r)
    ensures !Contains(r, SEE_ALSO)
  {
    var i := Find(text, SEE_ALSO);
    var cut := if i >= 0 then text[..i] else text;
    FixedCutHasNoSeeAlso(text);
    ReadableClean(cut);
    Readable(cut)
  }

  /** What the as-written cut keeps: the text before the first " См.", or,
      when there is none, all of it but the last character. */
  lemma SourceTextPatternCut(text: string)
    ensures Contains(text, SEE_ALSO) ==>
              SourceTextPattern(text) == Readable(text[..Find(text, SEE_ALSO)])
    ensures !Contains(text, SEE_ALSO) && |text| > 0 ==>
              SourceTextPattern(text) == Readable(text[..|text| - 1])
  {
    var i := Find(text, SEE_ALSO);
    if i >= 0 {
      assert Slice(text, 0, i) == text[..i];
    } else if |text| > 0 {
      assert Slice(text, 0, i) == text[..|text| - 1];
    }
  }

  /** Both versions agree whenever the citation has a " См." in it. */
  lemma FixedAgreesWithMarker(text: string)
    requires Contains(text, SEE_ALSO)
    ensures SourceTextPatternFixed(text) == SourceTextPattern(text)
  {
  }

  /** The as-written cut never keeps a " См.". */
  lemma CutHasNoSeeAlso(text: string)
    ensures !Contains(Slice(text, 0, Find(text, SEE_ALSO)), SEE_ALSO)
  {
    var i := Find(text, SEE_ALSO);
    if i >= 0 {
      PrefixBeforeFirst(text, SEE_ALSO, i);
    } else if |text| > 0 {
      if Contains(text[..|text| - 1], SEE_ALSO) {
        assert OccursAt(text, text[..|text| - 1], 0);
        ContainsTrans(text, text[..|text| - 1], SEE_ALSO);
      }
    }
  }

  /** Neither does the corrected one. */
  lemma FixedCutHasNoSeeAlso(text: string)
    ensures var i := Find(text, SEE_ALSO);
            !Contains(if i >= 0 then text[..i] else text, SEE_ALSO)
  {
    var i := Find(text, SEE_ALSO);
    if i >= 0 {
      PrefixBeforeFirst(text, SEE_ALSO, i);
    }
  }

  lemma DifferAt(a: string, b: string, k: nat)
    requires k < |a| && k < |b| && a[k] != b[k]
    ensures !Compatible(a, b)
  {
  }

  lemma SvodAvoidsLower()
    ensures Separated(SVOD, ABBR_LOWER)
  {
    forall i | 0 <= i < |SVOD|
      ensures !Compatible(SVOD[i..], ABBR_LOWER)
    {
      if i == 9 {
        DifferAt(SVOD[i..], ABBR_LOWER, 1);
      } else {
        DifferAt(SVOD[i..], ABBR_LOWER, 0);
      }
    }
    forall j | 0 < j < |ABBR_LOWER|
      ensures !Compatible(SVOD, ABBR_LOWER[j..])
    {
      DifferAt(SVOD, ABBR_LOWER[j..], 0);
    }
  }

  lemma SvodAvoidsUpper()
    ensures Separated(SVOD, ABBR_UPPER)
  {
    forall i | 0 <= i < |SVOD|
      ensures !Compatible(SVOD[i..], ABBR_UPPER)
    {
      if i == 0 {
        DifferAt(SVOD[i..], ABBR_UPPER, 2);
      } else {
        DifferAt(SVOD[i..], ABBR_UPPER, 0);
      }
    }
    forall j | 0 < j < |ABBR_UPPER|
      ensures !Compatible(SVOD, ABBR_UPPER[j..])
    {
      DifferAt(SVOD, ABBR_UPPER[j..], 0);
    }
  }

  lemma SvodAvoidsSeeAlso()
    ensures Separated(SVOD, SEE_ALSO)
  {
    forall i | 0 <= i < |SVOD|
      ensures !Compatible(SVOD[i..], SEE_ALSO)
    {
      if i == 4 {
        DifferAt(SVOD[i..], SEE_ALSO, 1);
      } else {
        DifferAt(SVOD[i..], SEE_ALSO, 0);
      }
    }
    forall j | 0 < j < |SEE_ALSO|
      ensures !Compatible(SVOD, SEE_ALSO[j..])
    {
      if j == 1 {
        DifferAt(SVOD, SEE_ALSO[j..], 1);
      } else {
        DifferAt(SVOD, SEE_ALSO[j..], 0);
      }
    }
  }

  lemma SvodAvoidsOtherDuas()
    ensures Separated(SVOD, OTHER_DUAS)
  {
    forall i | 0 <= i < |SVOD|
      ensures !Compatible(SVOD[i..], OTHER_DUAS)
    {
      if i == 0 {
        DifferAt(SVOD[i..], OTHER_DUAS, 1);
      } else {
        DifferAt(SVOD[i..], OTHER_DUAS, 0);
      }
    }
    forall j | 0 < j < |OTHER_DUAS|
      ensures !Compatible(SVOD, OTHER_DUAS[j..])
    {
      DifferAt(SVOD, OTHER_DUAS[j..], 0);
    }
  }

  lemma SvodSeparated()
    ensures Separated(SVOD, ABBR_LOWER)
    ensures Separated(SVOD, ABBR_UPPER)
    ensures Separated(SVOD, SEE_ALSO)
    ensures Separated(SVOD, OTHER_DUAS)
  {
    SvodAvoidsLower();
    SvodAvoidsUpper();
    SvodAvoidsSeeAlso();
    SvodAvoidsOtherDuas();
  }

  lemma SemiBreakSeparated()
    ensures Separated(SEMI_BREAK, ABBR_LOWER)
    ensures Separated(SEMI_BREAK, ABBR_UPPER)
    ensures Separated(SEMI_BREAK, SEMI)
    ensures Separated(SEMI_BREAK, SEE_ALSO)
  {
    var rep := SEMI_BREAK;
    forall w, i | w in [ABBR_LOWER, ABBR_UPPER, SEE_ALSO] && 0 <= i < |rep|
      ensures !Compatible(rep[i..], w)
    {
      DifferAt(rep[i..], w, 0);
    }
    forall w, j | w in [ABBR_LOWER, ABBR_UPPER, SEE_ALSO] && 0 < j < |w|
      ensures !Compatible(rep, w[j..])
    {
      DifferAt(rep, w[j..], 0);
    }
    forall i | 0 <= i < |rep|
      ensures !Compatible(rep[i..], SEMI)
    {
      DifferAt(rep[i..], SEMI, 1 - i);
    }
    DifferAt(rep, SEMI[1..], 0);
  }

  /** The normalisation after the cut always yields a clean citation, and
      adds no " См." of its own. */
  lemma ReadableClean(cut: string)
    ensures Clean(Readable(cut))
    ensures !Contains(cut, SEE_ALSO) ==> !Contains(Readable(cut), SEE_ALSO)
  {
    SvodSeparated();
    SemiBreakSeparated();
    var a := ReplaceAll(cut, ABBR_LOWER, SVOD);
    var b := ReplaceAll(a, ABBR_UPPER, SVOD);
    var c := ReplaceAll(b, SEMI, SEMI_BREAK);
    var r := Strip(c);
    ReplaceAvoids(cut, ABBR_LOWER, SVOD, ABBR_LOWER);
    ReplaceAvoids(a, ABBR_UPPER, SVOD, ABBR_LOWER);
    ReplaceAvoids(a, ABBR_UPPER, SVOD, ABBR_UPPER);
    ReplaceAvoids(b, SEMI, SEMI_BREAK, ABBR_LOWER);
    ReplaceAvoids(b, SEMI, SEMI_BREAK, ABBR_UPPER);
    ReplaceAvoids(b, SEMI, SEMI_BREAK, SEMI);
    forall w | w in [ABBR_LOWER, ABBR_UPPER, SEMI, SEE_ALSO] && Contains(r, w)
      ensures Contains(c, w)
    {
      ContainsTrans(c, r, w);
    }
    if !Contains(cut, SEE_ALSO) {
      ReplaceAvoids(cut, ABBR_LOWER, SVOD, SEE_ALSO);
      ReplaceAvoids(a, ABBR_UPPER, SVOD, SEE_ALSO);
      ReplaceAvoids(b, SEMI, SEMI_BREAK, SEE_ALSO);
    }
  }

  /** A clean citation is left as it is. */
  lemma ReadableOfClean(t: string)
    requires Clean(t)
    ensures Readable(t) == t
  {
    ReplaceAbsent(t, ABBR_LOWER, SVOD);
    ReplaceAbsent(t, ABBR_UPPER, SVOD);
    ReplaceAbsent(t, SEMI, SEMI_BREAK);
  }

  /** The corrected normalisation is idempotent. */
  lemma SourceTextPatternFixedIdempotent(text: string)
    ensures SourceTextPatternFixed(SourceTextPatternFixed(text)) == SourceTextPatternFixed(text)
  {
    var r := SourceTextPatternFixed(text);
    ReadableOfClean(r);
  }

  /** The as-written normalisation is not: applied to its own non-empty
      output it always loses at least the last character. */
  lemma SourceTextPatternShrinks(text: string)
    ensures SourceTextPattern(text) != "" ==>
              |SourceTextPattern(SourceTextPattern(text))| < |SourceTextPattern(text)|
  {
    if SourceTextPattern(text) != "" {
      ShrinkClean(SourceTextPattern(text));
    }
  }

  /** The as-written cut of a clean citation without " См." only drops the
      last character and strips what is left. */
  lemma ShrinkClean(r: string)
    requires r != "" && Clean(r) && !Contains(r, SEE_ALSO)
    ensures SourceTextPattern(r) == Strip(r[..|r| - 1])
    ensures |SourceTextPattern(r)| < |r|
  {
    var cut := r[..|r| - 1];
    SourceTextPatternCut(r);
    DropLastAvoids(r, ABBR_LOWER);
    DropLastAvoids(r, ABBR_UPPER);
    DropLastAvoids(r, SEMI);
    ReplaceAbsent(cut, ABBR_LOWER, SVOD);
    ReplaceAbsent(cut, ABBR_UPPER, SVOD);
    ReplaceAbsent(cut, SEMI, SEMI_BREAK);
  }

  /** A citation without " См.": the as-written cut loses its last letter,
      the corrected one keeps the citation whole. */
  lemma SourceTextPatternLosesLetter(t: string)
    requires t == "Бухари"
    ensures SourceTextPattern(t) == "Бухар"
    ensures SourceTextPatternFixed(t) == t
  {
    BukhariIsClean(t);
    CleanDropsLast(t);
    FixedKeepsClean(t);
  }

  lemma BukhariIsClean(t: string)
    requires t == "Бухари"
    ensures t != "" && Clean(t) && Clean(t[..|t| - 1]) && !Contains(t, SEE_ALSO)
    ensures t[..|t| - 1] == "Бухар"
  {
    assert SEE_ALSO[0] !in t;
    FirstCharAbsent(t, SEE_ALSO);
    CleanWord(t);
    CleanWord(t[..|t| - 1]);
  }

  /** A clean citation without " См." loses its last character to the
      as-written cut and nothing else. */
  lemma CleanDropsLast(t: string)
    requires t != "" && Clean(t) && Clean(t[..|t| - 1]) && !Contains(t, SEE_ALSO)
    ensures SourceTextPattern(t) == t[..|t| - 1]
  {
    SourceTextPatternCut(t);
    ReadableOfClean(t[..|t| - 1]);
  }

  /** The corrected clean-up keeps a clean citation without " См." whole. */
  lemma FixedKeepsClean(t: string)
    requires Clean(t) && !Contains(t, SEE_ALSO)
    ensures SourceTextPatternFixed(t) == t
  {
    ReadableOfClean(t);
  }

  /** A word with no "с", "С", ";" or whitespace is a clean citation. */
  lemma CleanWord(t: string)
    requires 'с' !in t && 'С' !in t && ';' !in t
    requires |t| > 0 ==> !IsSpace(t[0]) && !IsSpace(t[|t| - 1])
    ensures Clean(t)
  {
    FirstCharAbsent(t, ABBR_LOWER);
    FirstCharAbsent(t, ABBR_UPPER);
    FirstCharAbsent(t, SEMI);
  }

  // ---------------------------------------------------------------------
  // get_dua_or_hadith_text: what the three branches do with the page texts

  /** The texts `get_dua_or_hadith_text` reads off a page, after the
      footnote links have been removed. */
  datatype Page = Page(
    firstParagraph: string,      // `article p:first-child`: the hadith
    lastParagraph: string,       // the last `article p:last-child`: its source
    paragraphs: seq<string>,     // every `article p`: the ayah and its commentary
    firstDiv: Option<string>,    // the first `article div`, if there is one
    title: string,               // the `upage__title` element: the dua's header
    duaParagraphs: seq<string>)  // every `article p` once the `article div`s are gone

  /** What a branch returns: the tuple of `get_dua_or_hadith_text`, plus
      the verse lookups the ayah branch made, in the order it made them. */
  datatype Extracted = Extracted(first: string, second: string, lookups: seq<string>)

  /** The hadith branch: the normalised source and the hadith, but only when
      the source normalises to something; otherwise the function reaches its
      last `return` with `header` never assigned. */
  function HadithText(page: Page): (r: Result<Extracted, Error>)
    ensures r.Success? <==> SourceTextPattern(page.lastParagraph) != ""
    ensures r.Success? ==> r.value.second == page.firstParagraph && r.value.lookups == []
    ensures r.Success? ==> Clean(r.value.first) && r.value.first == SourceTextPattern(page.lastParagraph)
    ensures r.Failure? ==> r.error == UnboundHeader
  {
    var source := SourceTextPattern(page.lastParagraph);
    if source != "" then Success(Extracted(source, page.firstParagraph, []))
    else Failure(UnboundHeader)
  }

  /** A one-character source is cut to nothing, so the branch falls through
      to the unassigned `header`. */
  lemma HadithOneLetterFails(page: Page)
    requires |page.lastParagraph| == 1
    ensures HadithText(page) == Failure(UnboundHeader)
  {
    var t := page.lastParagraph;
    assert |t| < |SEE_ALSO|;
    SourceTextPatternCut(t);
    assert t[..|t| - 1] == "";
    ReplaceAbsent("", ABBR_LOWER, SVOD);
    ReplaceAbsent("", ABBR_UPPER, SVOD);
    ReplaceAbsent("", SEMI, SEMI_BREAK);
  }

  /** The hadith branch with the corrected clean-up. */
  function HadithTextFixed(page: Page): (r: Result<Extracted, Error>)
    ensures r.Success? <==> SourceTextPatternFixed(page.lastParagraph) != ""
    ensures r.Success? ==> r.value.second == page.firstParagraph && r.value.lookups == []
    ensures r.Success? ==> Clean(r.value.first) && r.value.first == SourceTextPatternFixed(page.lastParagraph)
    ensures r.Failure? ==> r.error == UnboundHeader
  {
    var source := SourceTextPatternFixed(page.lastParagraph);
    if source != "" then Success(Extracted(source, page.firstParagraph, []))
    else Failure(UnboundHeader)
  }

  /** The two hadith branches agree whenever the source has a " См.". */
  lemma HadithTextAgreesWithMarker(page: Page)
    requires Contains(page.lastParagraph, SEE_ALSO)
    ensures HadithTextFixed(page) == HadithText(page)
  {
    FixedAgreesWithMarker(page.lastParagraph);
  }

  /** The ayah text before truncation: the paragraphs joined with spaces,
      or the first div when they join to nothing. */
  function AyahBody(page: Page): Result<string, Error>
  {
    var joined := Join(" ", page.paragraphs);
    if joined != "" then Success(joined)
    else if page.firstDiv.Some? then Success(page.firstDiv.value)
    else Failure(NoElement)
  }

  /** The body cut two characters after the ")" that closes the Qur'an
      reference, with Python's `find` and slice semantics. */
  function CutBody(body: string): string
  {
    Slice(body, 0, FindAt(body, ")", Find(body, QURAN_REF) + 11) + 2)
  }

  /** The reference, searched for again in the cut body: from just after
      "Св. Коран, " up to the next ")". */
  function ReferenceIn(cut: string): string
  {
    var start := Find(cut, QURAN_REF) + 11;
    Slice(cut, start, FindAt(cut, ")", start))
  }

  /** The cut body and the reference. */
  function CutAtReference(body: string): (string, string)
  {
    var cut := CutBody(body);
    (cut, ReferenceIn(cut))
  }

  /** Where the reference sits in a body that has one: "Св. Коран, " at `m`,
      the ")" after it at `c`, and the body kept up to two characters past
      the ")". */
  lemma CutAtReferenceCut(body: string, m: int, c: int)
    requires m == Find(body, QURAN_REF) >= 0
    requires c == FindAt(body, ")", m + 11) >= 0
    ensures var n := if c + 2 <= |body| then c + 2 else |body|;
            && m + 11 <= c < n
            && CutBody(body) == body[..n]
            && Find(body[..n], QURAN_REF) == m
            && FindAt(body[..n], ")", m + 11) == c
  {
    var n := if c + 2 <= |body| then c + 2 else |body|;
    assert Slice(body, 0, c + 2) == body[..n];
    FindInPrefix(body, QURAN_REF, n);
    FindAtInPrefix(body, ")", m + 11, n);
  }

  /** With the reference present, it is exactly what lies between
      "Св. Коран, " and the next ")", and holds no ")" itself. */
  lemma CutAtReferenceFound(body: string, m: int, c: int)
    requires m == Find(body, QURAN_REF) >= 0
    requires c == FindAt(body, ")", m + 11) >= 0
    ensures m + 11 <= c
    ensures CutAtReference(body).1 == body[m + 11..c]
    ensures forall k :: m + 11 <= k < c ==> body[k] != ')'
  {
    var n := if c + 2 <= |body| then c + 2 else |body|;
    CutAtReferenceCut(body, m, c);
    var cut := body[..n];
    assert ReferenceIn(cut) == cut[m + 11..c];
    SliceOfSlice(body, 0, n, m + 11, c);
    NoParenBefore(body, m + 11, c);
  }

  /** A search for ")" from `lo` that stops at `hi` passed no ")". */
  lemma NoParenBefore(body: string, lo: nat, hi: int)
    requires FindAt(body, ")", lo) == hi >= lo
    ensures forall k :: lo <= k < hi ==> body[k] != ')'
  {
    forall k | lo <= k < hi
      ensures body[k] != ')'
    {
      OccursChar(body, ')', k);
    }
  }

  /** Without a reference and without a ")" from index 10 on, the body is cut
      to its first character and the reference comes out empty. */
  lemma CutAtReferenceMissing(body: string)
    requires |body| > 0 && !Contains(body, QURAN_REF) && FindAt(body, ")", 10) < 0
    ensures CutAtReference(body) == (body[..1], "")
  {
    var cut := Slice(body, 0, 1);
    assert cut == body[..1];
    assert !Contains(cut, QURAN_REF);
  }

  /** The surah: the part of the reference before its first ":". */
  function Surah(pointer: string): string
  {
    Split(pointer, ":")[0]
  }

  /** The verse numbers: the part after the last ":", split on ", ". */
  function Verses(pointer: string): (vs: seq<string>)
    ensures |vs| >= 1
  {
    var parts := Split(pointer, ":");
    Split(parts[|parts| - 1], ", ")
  }

  /** One lookup key `surah:verse` per verse number, in listed order. */
  function VerseKeys(pointer: string): (keys: seq<string>)
    ensures |keys| == |Verses(pointer)|
    ensures forall i :: 0 <= i < |keys| ==> keys[i] == Surah(pointer) + ":" + Verses(pointer)[i]
  {
    var surah := Surah(pointer);
    var verses := Verses(pointer);
    seq(|verses|, i requires 0 <= i < |verses| => surah + ":" + verses[i])
  }

  /** With exactly one ":" in the reference, the surah and the verse numbers
      are all of it: the lookups cover every listed verse and nothing else. */
  lemma VersesCoverPointer(pointer: string)
    requires multiset(pointer)[':'] == 1
    ensures pointer == Surah(pointer) + ":" + Join(", ", Verses(pointer))
  {
    var parts := Split(pointer, ":");
    SplitCount(pointer, ':');
    SplitJoin(pointer, ":");
    assert parts == [parts[0]] + [parts[1]];
    JoinCons(":", parts[0], [parts[1]]);
    SplitJoin(parts[1], ", ");
  }

  /** The example of a two-verse reference: "3:7, 8" is looked up as "3:7"
      and then "3:8". */
  lemma TwoVerseExample(p: string)
    requires p == "3:7, 8"
    ensures VerseKeys(p) == ["3:7", "3:8"]
  {
    var tail := p[2..];
    SplitAtColon(p, tail);
    SplitAtComma(tail);
    assert Surah(p) == "3";
    assert Verses(p) == ["7", "8"];
    KeysFromParts(p);
  }

  /** The keys of a reference with surah "3" and verses "7" and "8". */
  lemma KeysFromParts(p: string)
    requires Surah(p) == "3" && Verses(p) == ["7", "8"]
    ensures VerseKeys(p) == ["3:7", "3:8"]
  {
    var keys := VerseKeys(p);
    assert keys[0] == "3" + ":" + "7" && keys[1] == "3" + ":" + "8";
    assert "3" + ":" + "7" == "3:7" && "3" + ":" + "8" == "3:8";
    assert |keys| == 2;
  }

  /** "3:7, 8" splits on ":" into the surah and the verse list. */
  lemma SplitAtColon(p: string, tail: string)
    requires p == "3:7, 8" && tail == p[2..]
    ensures tail == "7, 8"
    ensures Split(p, ":") == ["3", tail]
  {
    OccursChar(p, ':', 0);
    OccursChar(p, ':', 1);
    SplitFirst(p, ":", 1);
    forall k | 0 <= k < |tail|
      ensures !OccursAt(tail, ":", k)
    {
      OccursChar(tail, ':', k);
    }
    SplitNone(tail, ":");
    assert p[..1] == "3";
  }

  /** "7, 8" splits on ", " into its two verse numbers. */
  lemma SplitAtComma(tail: string)
    requires tail == "7, 8"
    ensures Split(tail, ", ") == ["7", "8"]
  {
    assert tail[0..2][0] == '7';
    assert !OccursAt(tail, ", ", 0);
    assert tail[1..3] == ", ";
    SplitFirst(tail, ", ", 1);
    var last := tail[3..];
    assert last == "8";
    SplitNone(last, ", ");
    assert tail[..1] == "7";
  }

  /** Each lookup's text followed by a line break, in order. */
  function LookupTexts(keys: seq<string>, lookup: string -> string): string
  {
    if |keys| == 0 then [] else lookup(keys[0]) + "\n" + LookupTexts(keys[1..], lookup)
  }

  /** The ayah branch: the reference, and the Arabic of every listed verse
      (one lookup each, each followed by a line break), a blank line and the
      cut body. */
  function AyahText(page: Page, lookup: string -> string): (r: Result<Extracted, Error>)
    ensures r.Failure? <==> AyahBody(page).Failure?
    ensures r.Success? ==>
              && r.value.first == CutAtReference(AyahBody(page).value).1
              && r.value.lookups == VerseKeys(r.value.first)
              && r.value.second == LookupTexts(r.value.lookups, lookup) + "\n" + CutAtReference(AyahBody(page).value).0
  {
    match AyahBody(page)
    case Failure(e) => Failure(e)
    case Success(body) =>
      var (cut, pointer) := CutAtReference(body);
      var keys := VerseKeys(pointer);
      Success(Extracted(pointer, LookupTexts(keys, lookup) + "\n" + cut, keys))
  }

  /** The dua paragraphs with every "see other duas" paragraph emptied. */
  function DropOtherDuas(ps: seq<string>): (r: seq<string>)
    ensures |r| == |ps|
    ensures forall i :: 0 <= i < |ps| ==> !Contains(r[i], OTHER_DUAS)
    ensures forall i :: 0 <= i < |ps| ==> r[i] == ps[i] || r[i] == ""
    ensures forall i :: 0 <= i < |ps| && !Contains(ps[i], OTHER_DUAS) ==> r[i] == ps[i]
  {
    seq(|ps|, i requires 0 <= i < |ps| => if Contains(ps[i], OTHER_DUAS) then "" else ps[i])
  }

  /** The dua branch: the stripped title, and the paragraphs joined by line
      breaks with the abbreviations spelled out and the ends stripped. */
  function DuaText(page: Page): (r: Extracted)
    ensures r.first == Strip(page.title) && r.lookups == []
    ensures !Contains(r.second, OTHER_DUAS)
    ensures !Contains(r.second, ABBR_LOWER) && !Contains(r.second, ABBR_UPPER)
    ensures Stripped(r.second)
  {
    var joined := Join("\n", DropOtherDuas(page.duaParagraphs));
    var body := Strip(ExpandAbbreviations(joined));
    DuaTextClean(page.duaParagraphs);
    Extracted(Strip(page.title), body, [])
  }

  /** No "see other duas" text and no abbreviation survives the dua branch. */
  lemma DuaTextClean(ps: seq<string>)
    ensures var body := Strip(ExpandAbbreviations(Join("\n", DropOtherDuas(ps))));
            && !Contains(body, OTHER_DUAS)
            && !Contains(body, ABBR_LOWER) && !Contains(body, ABBR_UPPER)
  {
    var joined := Join("\n", DropOtherDuas(ps));
    var a := ReplaceAll(joined, ABBR_LOWER, SVOD);
    var b := ReplaceAll(a, ABBR_UPPER, SVOD);
    var body := Strip(b);
    SvodSeparated();
    JoinAvoids("\n", DropOtherDuas(ps), OTHER_DUAS);
    ReplaceAvoids(joined, ABBR_LOWER, SVOD, OTHER_DUAS);
    ReplaceAvoids(a, ABBR_UPPER, SVOD, OTHER_DUAS);
    ReplaceAvoids(joined, ABBR_LOWER, SVOD, ABBR_LOWER);
    ReplaceAvoids(a, ABBR_UPPER, SVOD, ABBR_LOWER);
    ReplaceAvoids(a, ABBR_UPPER, SVOD, ABBR_UPPER);
    StripAvoids(b, OTHER_DUAS);
    StripAvoids(b, ABBR_LOWER);
    StripAvoids(b, ABBR_UPPER);
  }

  /** Paragraphs without the marker or an abbreviation come through verbatim,
      apart from the whitespace at both ends. */
  lemma DuaTextVerbatim(page: Page)
    requires forall i :: 0 <= i < |page.duaParagraphs| ==>
               !Contains(page.duaParagraphs[i], OTHER_DUAS)
               && !Contains(page.duaParagraphs[i], ABBR_LOWER)
               && !Contains(page.duaParagraphs[i], ABBR_UPPER)
    ensures DuaText(page).second == Strip(Join("\n", page.duaParagraphs))
  {
    var ps := page.duaParagraphs;
    assert DropOtherDuas(ps) == ps;
    var joined := Join("\n", ps);
    JoinAvoids("\n", ps, ABBR_LOWER);
    JoinAvoids("\n", ps, ABBR_UPPER);
    ReplaceAbsent(joined, ABBR_LOWER, SVOD);
    ReplaceAbsent(joined, ABBR_UPPER, SVOD);
  }

  /** `get_dua_or_hadith_text`, from the page texts on. */
  function GetText(kind: Kind, page: Page, lookup: string -> string): (r: Result<Extracted, Error>)
    ensures kind == Dua ==> r.Success?
    ensures kind != Ayah ==> r.Success? ==> r.value.lookups == []
  {
    match kind
    case Hadith => HadithText(page)
    case Ayah => AyahText(page, lookup)
    case Dua => Success(DuaText(page))
  }

  // ---------------------------------------------------------------------
  // set_ayah_pointer_in_img: the label drawn on the ayah picture

  /** The two-line label: the surah, a line break, and the first verse
      number. The unpacking of `pointer.split(":")` fails unless there are
      exactly two parts. */
  function AyahLabel(pointer: string): (r: Result<string, Error>)
    ensures r.Success? <==> multiset(pointer)[':'] == 1
    ensures r.Failure? ==> r.error == LabelUnpack
    ensures r.Success? ==> r.value == Surah(pointer) + "\n" + Verses(pointer)[0]
  {
    var parts := Split(pointer, ":");
    SplitCount(pointer, ':');
    if |parts| != 2 then Failure(LabelUnpack)
    else Success(parts[0] + "\n" + Split(parts[1], ", ")[0])
  }

  /** Replacing the only ":" of `a + ":" + b`. */
  lemma ReplaceOnlyColon(a: string, b: string, rep: string)
    requires !Contains(a, ":") && !Contains(b, ":")
    ensures ReplaceAll(a + ":" + b, ":", rep) == a + rep + b
  {
    var s := a + ":" + b;
    assert OccursAt(s, ":", |a|);
    forall j | 0 <= j < |a|
      ensures !OccursAt(s, ":", j)
    {
      if OccursAt(s, ":", j) {
        assert s[j] == a[j];
        OccursChar(s, ':', j);
        OccursChar(a, ':', j);
      }
    }
    ReplaceAtFirst(s, ":", rep, |a|);
    assert s[..|a|] == a && s[|a| + 1..] == b;
    ReplaceAbsent(b, ":", rep);
  }

  /** The label is the first lookup key with its ":" turned into a line
      break: the picture names the first verse that was looked up. */
  lemma AyahLabelIsFirstKey(pointer: string)
    requires AyahLabel(pointer).Success?
    ensures AyahLabel(pointer).value == ReplaceAll(VerseKeys(pointer)[0], ":", "\n")
  {
    var parts := Split(pointer, ":");
    var v := Split(parts[1], ", ")[0];
    SplitHeadPrefix(parts[1], ", ");
    if Contains(v, ":") {
      ContainsTrans(parts[1], v, ":");
    }
    ReplaceOnlyColon(parts[0], v, "\n");
  }

  // ---------------------------------------------------------------------
  // get_link_of_ayah_or_hadith_of_the_day: the href classification

  /** A link to an ayah page. */
  predicate IsAyahUrl(url: string)
  {
    Contains(url, "aya")
  }

  /** The `links` dictionary: the ayah and hadith entries, each present or
      not. */
  datatype Links = Links(ayah: Option<string>, hadith: Option<string>)

  /** Entry `i` of the hrefs makes an ayah URL (`ayah`) or a hadith URL
      (`!ayah`). */
  predicate Matches(hrefs: seq<string>, i: int, ayah: bool)
  {
    0 <= i < |hrefs| && IsAyahUrl(BASE_URL + hrefs[i]) == ayah
  }

  /** Entry `i` is the last href of its kind. */
  predicate LastMatch(hrefs: seq<string>, i: int, ayah: bool)
  {
    Matches(hrefs, i, ayah) && forall j :: i < j < |hrefs| ==> !Matches(hrefs, j, ayah)
  }

  /** The ayah entry of the links, or the hadith entry. */
  function Entry(l: Links, ayah: bool): Option<string>
  {
    if ayah then l.ayah else l.hadith
  }

  /** The loop over the `read-more` hrefs: each one, prefixed with the site
      address, goes into the ayah entry when it contains "aya" and into the
      hadith entry otherwise, replacing what an earlier href put there. */
  function CollectLinks(hrefs: seq<string>): (l: Links)
    ensures l.ayah.Some? ==> IsAyahUrl(l.ayah.value)
    ensures l.hadith.Some? ==> !IsAyahUrl(l.hadith.value)
  {
    if |hrefs| == 0 then Links(None, None)
    else
      var before := CollectLinks(hrefs[..|hrefs| - 1]);
      var url := BASE_URL + hrefs[|hrefs| - 1];
      if IsAyahUrl(url) then before.(ayah := Some(url)) else before.(hadith := Some(url))
  }

  /** Each entry is filled exactly when some href is of its kind, and then
      holds the URL of the last such href. */
  lemma {:induction false} CollectLinksLast(hrefs: seq<string>, ayah: bool)
    ensures Entry(CollectLinks(hrefs), ayah).Some? <==> exists i :: Matches(hrefs, i, ayah)
    ensures Entry(CollectLinks(hrefs), ayah).Some? ==>
              exists i :: LastMatch(hrefs, i, ayah)
                          && Entry(CollectLinks(hrefs), ayah).value == BASE_URL + hrefs[i]
  {
    if |hrefs| > 0 {
      var init := hrefs[..|hrefs| - 1];
      var n := |hrefs| - 1;
      CollectLinksLast(init, ayah);
      forall i | 0 <= i < n
        ensures Matches(init, i, ayah) <==> Matches(hrefs, i, ayah)
      {
        assert init[i] == hrefs[i];
      }
      if Matches(hrefs, n, ayah) {
        assert LastMatch(hrefs, n, ayah);
      } else if Entry(CollectLinks(hrefs), ayah).Some? {
        var i :| LastMatch(init, i, ayah)
                 && Entry(CollectLinks(init), ayah).value == BASE_URL + init[i];
        assert LastMatch(hrefs, i, ayah);
      }
    }
  }

  /** The link of the day: the ayah entry for `Ayah`, the hadith entry for
      every other kind, and `KeyError` when that entry was never filled. */
  function DailyLink(kind: Kind, hrefs: seq<string>): (r: Result<string, Error>)
    ensures r.Failure? ==> r.error == MissingLink
    ensures r.Success? <==> exists i :: Matches(hrefs, i, kind.Ayah?)
    ensures r.Success? ==>
              exists i :: LastMatch(hrefs, i, kind.Ayah?) && r.value == BASE_URL + hrefs[i]
  {
    CollectLinksLast(hrefs, kind.Ayah?);
    var entry := Entry(CollectLinks(hrefs), kind.Ayah?);
    if entry.Some? then Success(entry.value) else Failure(MissingLink)
  }

  lemma BaseAvoidsAya()
    ensures Separated(BASE_URL, "aya")
  {
    forall i | 0 <= i < |BASE_URL|
      ensures !Compatible(BASE_URL[i..], "aya")
    {
      if i == 11 {
        DifferAt(BASE_URL[i..], "aya", 1);
      } else {
        DifferAt(BASE_URL[i..], "aya", 0);
      }
    }
    forall j | 0 < j < 3
      ensures !Compatible(BASE_URL, "aya"[j..])
    {
      DifferAt(BASE_URL, "aya"[j..], 0);
    }
  }

  /** The site address plays no part in the classification: a URL counts
      as an ayah link exactly when its href contains "aya". */
  lemma AyahUrlByHref(href: string)
    ensures IsAyahUrl(BASE_URL + href) <==> Contains(href, "aya")
  {
    if Contains(href, "aya") {
      assert (BASE_URL + href)[|BASE_URL|..] == href;
      ContainsDrop(BASE_URL + href, |BASE_URL|, "aya");
    } else {
      BaseAvoidsAya();
      AvoidAfterRep(BASE_URL, href, "aya");
    }
  }

  // ---------------------------------------------------------------------
  // prettify_text

  const TRANSCRIPTION_DUA := "Транскрипция дуа:"
  const TRANSLATION_DUA := "Перевод дуа:"
  const TRANSCRIPTION := "Транскрипция:"
  const TRANSLATION := "Перевод:"
  const TRANSCRIPTION_BOLD := "\n*Транскрипция:*"
  const TRANSLATION_BOLD := "\n*Перевод: *"

  /** The four replacements applied to a dua, in the order the source
      chains them. */
  function DuaMarkup(content: string): string
  {
    var a := ReplaceAll(content, TRANSCRIPTION_DUA, TRANSCRIPTION_BOLD);
    var b := ReplaceAll(a, TRANSLATION_DUA, TRANSLATION_BOLD);
    var c := ReplaceAll(b, TRANSCRIPTION, TRANSCRIPTION_BOLD);
    ReplaceAll(c, TRANSLATION, TRANSLATION_BOLD)
  }

  /** The opening of each template, up to where its first field goes. */
  function Head(kind: Kind): string
  {
    match kind
    case Ayah => "💬 *Аят дня. "
    case Hadith => "📖 *Хадис дня*\n📚 *"
    case Dua => "🤲 *"
  }

  /** What a template makes of the content field. */
  function Body(kind: Kind, content: string): string
  {
    if kind == Dua then DuaMarkup(content) else content
  }

  const TAIL := "\n\n" + SIGNATURE

  /** `prettify_text`: `first` is the ayah reference, the hadith source or
      the dua title; `content` the text beneath it. */
  function Prettify(kind: Kind, first: string, content: string): (r: string)
    ensures r == Head(kind) + first + "*\n\n" + Body(kind, content) + TAIL
  {
    var pretty := match kind
      case Ayah => "💬 *Аят дня. " + first + "*\n\n" + content + "\n\n"
      case Hadith => "📖 *Хадис дня*\n" + "📚 *" + first + "*\n\n" + content + "\n\n"
      case Dua => "🤲 *" + first + "*\n\n" + DuaMarkup(content) + "\n\n";
    pretty + SIGNATURE
  }

  /** Reads a post back into its two fields: the first field runs up to
      the first "*", which must open the "*\n\n" that ends it. */
  function Parse(kind: Kind, post: string): Option<(string, string)>
  {
    Unframe(Head(kind), TAIL, post)
  }

  /** The two fields between the frame `h` ... `t`, split at the first "*". */
  function Unframe(h: string, t: string, post: string): Option<(string, string)>
  {
    if |post| < |h| + |t| || post[..|h|] != h || post[|post| - |t|..] != t then None
    else
      var mid := post[|h|..|post| - |t|];
      var i := Find(mid, "*");
      if i < 0 || !OccursAt(mid, "*\n\n", i) then None
      else Some((mid[..i], mid[i + 3..]))
  }

  /** A field without "*" comes back out of the post unchanged. */
  lemma ParsePrettify(kind: Kind, first: string, content: string)
    requires forall k :: 0 <= k < |first| ==> first[k] != '*'
    ensures Parse(kind, Prettify(kind, first, content)) == Some((first, Body(kind, content)))
  {
    UnframeFrame(Head(kind), TAIL, first, Body(kind, content));
  }

  /** `Unframe` undoes framing for a first field without "*". */
  lemma UnframeFrame(h: string, t: string, first: string, body: string)
    requires forall k :: 0 <= k < |first| ==> first[k] != '*'
    ensures Unframe(h, t, h + first + "*\n\n" + body + t) == Some((first, body))
  {
    var post := h + first + "*\n\n" + body + t;
    var mid := first + "*\n\n" + body;
    assert post == h + mid + t;
    assert post[..|h|] == h;
    assert post[|post| - |t|..] == t;
    assert post[|h|..|post| - |t|] == mid;
    assert OccursAt(mid, "*", |first|);
    forall j | 0 <= j < |first|
      ensures !OccursAt(mid, "*", j)
    {
      OccursChar(mid, '*', j);
    }
    FindIsFirst(mid, "*", |first|);
    assert mid[|first|..|first| + 3] == "*\n\n";
    assert mid[..|first|] == first;
    assert mid[|first| + 3..] == body;
  }

  /** Whatever parses is a post of that template; for ayahs and hadiths,
      whose content is not rewritten, it is the post `Prettify` makes. */
  lemma PrettifyParse(kind: Kind, post: string)
    requires Parse(kind, post).Some?
    ensures var (first, body) := Parse(kind, post).value;
            && (forall k :: 0 <= k < |first| ==> first[k] != '*')
            && post == Head(kind) + first + "*\n\n" + body + TAIL
            && (kind != Dua ==> post == Prettify(kind, first, body))
  {
    FrameUnframe(Head(kind), TAIL, post);
  }

  /** Whatever `Unframe` accepts is framed, with a first field free of "*". */
  lemma FrameUnframe(h: string, t: string, post: string)
    requires Unframe(h, t, post).Some?
    ensures var (first, body) := Unframe(h, t, post).value;
            && (forall k :: 0 <= k < |first| ==> first[k] != '*')
            && post == h + first + "*\n\n" + body + t
  {
    var mid := post[|h|..|post| - |t|];
    var i := Find(mid, "*");
    var (first, body) := Unframe(h, t, post).value;
    forall k | 0 <= k < |first|
      ensures first[k] != '*'
    {
      assert !OccursAt(mid, "*", k);
      OccursChar(mid, '*', k);
    }
    assert mid == first + "*\n\n" + body;
    assert post == h + mid + t;
  }

  const TRANSCRIPTION_TWICE := "\n*\n*Транскрипция:**"

  /** The chained replacements rewrite their own output: a
      "Транскрипция дуа:" label is first bolded, and the bolded label then
      matches "Транскрипция:" and is wrapped a second time. */
  lemma DuaMarkupRewritesTranscription(content: string)
    requires content == TRANSCRIPTION_DUA
    ensures DuaMarkup(content) == TRANSCRIPTION_TWICE
  {
    MarkupSteps(content);
    WrappedTwice();
  }

  lemma MarkupSteps(content: string)
    requires content == TRANSCRIPTION_DUA
    ensures DuaMarkup(content) == "\n*" + TRANSCRIPTION_BOLD + "*"
  {
    var a := ReplaceAll(content, TRANSCRIPTION_DUA, TRANSCRIPTION_BOLD);
    MarkupStepOne(content);
    var b := ReplaceAll(a, TRANSLATION_DUA, TRANSLATION_BOLD);
    MarkupStepTwo(a);
    var c := ReplaceAll(b, TRANSCRIPTION, TRANSCRIPTION_BOLD);
    MarkupStepThree(b);
    MarkupStepFour(c);
  }

  lemma WrappedTwice()
    ensures "\n*" + TRANSCRIPTION_BOLD + "*" == TRANSCRIPTION_TWICE
  {
  }

  lemma MarkupStepOne(t: string)
    requires t == TRANSCRIPTION_DUA
    ensures ReplaceAll(t, TRANSCRIPTION_DUA, TRANSCRIPTION_BOLD) == TRANSCRIPTION_BOLD
  {
    ReplaceHit(t, TRANSCRIPTION_DUA, TRANSCRIPTION_BOLD);
    assert t[|TRANSCRIPTION_DUA|..] == "";
  }

  lemma MarkupStepTwo(a: string)
    requires a == TRANSCRIPTION_BOLD
    ensures ReplaceAll(a, TRANSLATION_DUA, TRANSLATION_BOLD) == a
  {
    assert TRANSLATION_DUA[0] !in a;
    FirstCharAbsent(a, TRANSLATION_DUA);
    ReplaceAbsent(a, TRANSLATION_DUA, TRANSLATION_BOLD);
  }

  lemma MarkupStepThree(b: string)
    requires b == TRANSCRIPTION_BOLD
    ensures ReplaceAll(b, TRANSCRIPTION, TRANSCRIPTION_BOLD) == "\n*" + TRANSCRIPTION_BOLD + "*"
  {
    assert b == "\n*" + TRANSCRIPTION + "*";
    ReplaceSingle("\n*", TRANSCRIPTION, "*", TRANSCRIPTION_BOLD);
  }

  lemma MarkupStepFour(c: string)
    requires c == "\n*" + TRANSCRIPTION_BOLD + "*"
    ensures ReplaceAll(c, TRANSLATION, TRANSLATION_BOLD) == c
  {
    assert TRANSLATION[0] !in c;
    FirstCharAbsent(c, TRANSLATION);
    ReplaceAbsent(c, TRANSLATION, TRANSLATION_BOLD);
  }

  /** A dua with none of the four labels is left as it is. */
  lemma DuaMarkupNoLabels(content: string)
    requires !Contains(content, TRANSCRIPTION_DUA) && !Contains(content, TRANSLATION_DUA)
    requires !Contains(content, TRANSCRIPTION) && !Contains(content, TRANSLATION)
    ensures DuaMarkup(content) == content
  {
    ReplaceAbsent(content, TRANSCRIPTION_DUA, TRANSCRIPTION_BOLD);
    ReplaceAbsent(content, TRANSLATION_DUA, TRANSLATION_BOLD);
    ReplaceAbsent(content, TRANSCRIPTION, TRANSCRIPTION_BOLD);
    ReplaceAbsent(content, TRANSLATION, TRANSLATION_BOLD);
  }
}
