/**
 What the run table stands for: the case data of the characters, from which unicode_gen.c builds
 the runs, and Canonicalize of ECMA-262 (section 22.2.2.7.3) in terms of that data.
 */
module CaseData {
  import opened RegexpPattern
  import opened CharRanges
  import opened CaseFolding
  import opened CharacterClass

  /** The case data of one character, CCInfo: to upper case, to lower case, case folding; empty where the
      character stays as it is. */
  datatype Info = Info(upper: seq<int>, lower: seq<int>, fold: seq<int>)

  /** The simple folding of U+FB05 is U+FB06, which has a full folding only; the code folds both to
      U+FB05. Two Greek letters have a simple folding beside several characters for upper case. */
  predicate IsLigature(c: int) { c == 0xfb05 }

  predicate IsGreekPair(c: int, d: int) { (c == 0x1fd3 && d == 0x390) || (c == 0x1fe3 && d == 0x3b0) }

  /** The data of character i of a run, as find_run_type demands it for each type. */
  predicate Describes(tab: Table, r: Run, c: int, x: Info) {
    var i := c - r.code;
    match r.typ
    case U => x == Info([CodeAt(tab, r.data) + i], [], [])
    case L => x == Info([], [CodeAt(tab, r.data) + i], [])
    case UF => x == Info([CodeAt(tab, r.data) + i], [], [CodeAt(tab, r.data) + i])
    case LF => x == Info([], [CodeAt(tab, r.data) + i], [CodeAt(tab, r.data) + i])
    case UL => x == if i % 2 == 0 then Info([], [c + 1], [c + 1]) else Info([c - 1], [], [])
    case LSU =>
      x == if i == 0 then Info([], [r.code + 2], [r.code + 2])
           else if i == 1 then Info([r.code], [r.code + 2], [r.code + 2])
           else Info([r.code], [], [])
    case U2L_399_EXT2 =>
      x == Info([tab.ext(r.data / 64) + i, 0x399], [tab.ext(r.data % 64) + i], [tab.ext(r.data % 64) + i])
    case UF_D20 => x == Info([r.data], [], [r.data + 0x20])
    case UF_D1_EXT => x == Info([tab.ext(r.data)], [], [tab.ext(r.data) + 1])
    case U_EXT => x == Info([tab.ext(r.data)], [], [])
    case LF_EXT => x == Info([], [tab.ext(r.data)], [tab.ext(r.data)])
    case UF_EXT2 => |x.upper| == 2 && x.lower == [] && (|x.fold| == 2 || (IsLigature(c) && x.fold == [0xfb06]))
    case LF_EXT2 => x.upper == [] && |x.lower| == 2 && x.fold == x.lower
    case UF_EXT3 =>
      |x.upper| == 3 && x.lower == [] && (|x.fold| == 3 || (|x.fold| == 1 && IsGreekPair(c, x.fold[0])))
  }

  /** Folding gives characters. */
  predicate FoldsToCharacters(x: Info) { forall i :: 0 <= i < |x.fold| ==> x.fold[i] >= 0 }

  /** The runs hold the data of every character, and characters outside all runs have none. */
  ghost predicate Represents(tab: Table, db: int -> Info) {
    && SortedRuns(tab.runs) && (forall c :: FoldsToCharacters(db(c)))
    && (forall k, c :: 0 <= k < |tab.runs| && Contains(tab.runs[k], c) ==> Describes(tab, tab.runs[k], c, db(c)))
    && (forall c :: (forall k :: 0 <= k < |tab.runs| ==> !Contains(tab.runs[k], c)) ==> db(c) == Info([], [], []))
  }

  /** The characters that c becomes. */
  function Becomes(x: Info, conv: Conversion, c: int): seq<int> {
    var data := match conv case ToUpper => x.upper case ToLower => x.lower case Fold => x.fold;
    if data == [] then [c] else data
  }

  /** lre_case_conv_entry gives the character that c becomes when it is one. */
  lemma ConvertIs(tab: Table, r: Run, c: int, x: Info, conv: Conversion)
    requires Describes(tab, r, c, x) && Contains(r, c) && RunOk(r)
    ensures var y := Becomes(x, conv, c);
      if |y| == 1 && !(conv == Fold && (r.typ.UF_EXT2? || r.typ.UF_EXT3?))
      then Convert(tab, c, conv, r) == y[0] else Convert(tab, c, conv, r) == -1
  {
  }

  // ----- Canonicalize ---------------------------------------------------------------------------------

  const LOWER_CASE: string := "abcdefghijklmnopqrstuvwxyz"

  const UPPER_CASE: string := "ABCDEFGHIJKLMNOPQRSTUVWXYZ"

  /** The ASCII short cuts exchange the letters and leave the rest alone. */
  lemma AsciiLetters(c: int)
    ensures forall i :: 0 <= i < 26 ==> AsciiUpper(LOWER_CASE[i] as int) == UPPER_CASE[i] as int
    ensures forall i :: 0 <= i < 26 ==> AsciiLower(UPPER_CASE[i] as int) == LOWER_CASE[i] as int
    ensures AsciiUpper(c) != c ==> 0 <= c - 97 < 26 && c == LOWER_CASE[c - 97] as int
    ensures AsciiLower(c) != c ==> 0 <= c - 65 < 26 && c == UPPER_CASE[c - 65] as int
  {
    forall i | 0 <= i < 26 ensures LOWER_CASE[i] as int == 97 + i && UPPER_CASE[i] as int == 65 + i { LetterCode(i); }
    if 0 <= c - 97 < 26 { LetterCode(c - 97); }
    if 0 <= c - 65 < 26 { LetterCode(c - 65); }
  }

  lemma LetterCode(i: int)
    requires 0 <= i < 26
    ensures LOWER_CASE[i] as int == 97 + i && UPPER_CASE[i] as int == 65 + i
  {
  }

  /** Without u and v: the single upper-case character, unless that would lead into ASCII. */
  function LegacyCanonicalize(x: Info, c: int): int {
    var u := Becomes(x, ToUpper, c);
    if |u| != 1 then c else if c >= 128 && u[0] < 128 then c else u[0]
  }

  /** With u or v: the simple or common folding. */
  function SimpleFold(x: Info, c: int): int {
    var f := Becomes(x, Fold, c);
    if |f| == 1 then f[0] else c
  }

  /** ASCII characters have the upper case of ASCII. */
  ghost predicate AsciiData(db: int -> Info) {
    forall c :: 0 <= c < 128 ==> Becomes(db(c), ToUpper, c) == [AsciiUpper(c)]
  }

  /** lre_canonicalize without u and v is Canonicalize of the standard. */
  lemma LegacyCanon(tab: Table, db: int -> Info, c: int)
    requires TableOk(tab) && Represents(tab, db) && AsciiData(db) && c >= 0
    ensures Canon(tab, c, false) == LegacyCanonicalize(db(c), c)
  {
    hide Describes, Convert;
    var k := FindRun(tab.runs, c, 0);
    if c < 128 {
      assert AsciiAt(tab, c, false);
    } else if k < |tab.runs| {
      ConvertIs(tab, tab.runs[k], c, db(c), ToUpper);
    }
  }

  /** Without u and v only ASCII characters fold to ASCII characters. */
  lemma LegacyAscii(tab: Table, c: int)
    requires TableOk(tab) && c >= 0
    ensures Canon(tab, c, false) < 128 <==> c < 128
  {
    hide Convert;
    if c < 128 { assert AsciiAt(tab, c, false); }
  }

  /** Facts of CaseFolding.txt about the characters with several characters in upper case. */
  ghost predicate SpecialData(db: int -> Info) {
    && |db(0xfb05).upper| == 2 && db(0xfb05).lower == [] && db(0xfb05).fold == [0xfb06] && |db(0xfb06).fold| == 2
    && db(0x1fd3).fold == [0x390] && db(0x1fe3).fold == [0x3b0]
  }

  predicate IsSt(c: int) { c == 0xfb05 || c == 0xfb06 }

  /** The types for several characters in upper case. */
  lemma ManyCharacters(tab: Table, r: Run, c: int, x: Info)
    requires Describes(tab, r, c, x)
    ensures (r.typ.UF_EXT2? || r.typ.UF_EXT3?) && |x.fold| == 1 ==> (IsLigature(c) && x.fold == [0xfb06]) || IsGreekPair(c, x.fold[0])
    ensures |x.upper| == 2 && x.lower == [] ==> r.typ.UF_EXT2?
    ensures (r.typ.UF_EXT2? || r.typ.UF_EXT3?) ==> |x.fold| >= 1
  {
  }

  /** lre_canonicalize with u or v is the simple folding, except that U+FB05 and not U+FB06 stands for
      the two ligatures of s and t. */
  lemma UnicodeCanon(tab: Table, db: int -> Info, c: int)
    requires TableOk(tab) && Represents(tab, db) && SpecialData(db) && c >= 0
    ensures Canon(tab, c, true) == if IsSt(c) then 0xfb05 else SimpleFold(db(c), c)
    ensures IsSt(c) ==> SimpleFold(db(c), c) == 0xfb06
  {
    hide Convert;
    var k := FindRun(tab.runs, c, 0);
    if k < |tab.runs| {
      ConvertIs(tab, tab.runs[k], c, db(c), Fold);
      assert Describes(tab, tab.runs[k], c, db(c)) && FoldsToCharacters(db(c));
      ManyCharacters(tab, tab.runs[k], c, db(c));
    }
  }

  /** unicode_case1 selects the characters that have a folding, or an upper case without u and v. */
  lemma MaskIs(tab: Table, db: int -> Info, c: int, unicode: bool)
    requires TableOk(tab) && Represents(tab, db)
    ensures InMask(tab, c, unicode) <==> (if unicode then db(c).fold != [] else db(c).upper != [])
  {
    hide Describes, Selected;
    var k := FindRun(tab.runs, c, 0);
    if k < |tab.runs| {
      SelectedIs(tab, tab.runs[k], c, db(c), unicode);
      forall j | 0 <= j < |tab.runs| && Selected(tab.runs[j], c, unicode) ensures j == k {
        SelectedIn(tab.runs[j], c, unicode);
        RunUnique(tab.runs, c, j);
      }
    } else {
      forall j | 0 <= j < |tab.runs| ensures !Selected(tab.runs[j], c, unicode) {
        if Selected(tab.runs[j], c, unicode) { SelectedIn(tab.runs[j], c, unicode); }
      }
    }
  }

  lemma SelectedIs(tab: Table, r: Run, c: int, x: Info, unicode: bool)
    requires Describes(tab, r, c, x) && Contains(r, c) && RunOk(r)
    ensures Selected(r, c, unicode) <==> (if unicode then x.fold != [] else x.upper != [])
  {
  }

  lemma SelectedIn(r: Run, c: int, unicode: bool)
    requires Selected(r, c, unicode)
    ensures Contains(r, c)
  {
  }

  /** Therefore the same characters are equal up to case as in the standard. */
  lemma SameClasses(tab: Table, db: int -> Info, a: int, b: int)
    requires TableOk(tab) && Represents(tab, db) && SpecialData(db) && a >= 0 && b >= 0
    requires forall c :: c >= 0 && !IsSt(c) ==> !IsSt(SimpleFold(db(c), c))
    ensures Canon(tab, a, true) == Canon(tab, b, true) <==> SimpleFold(db(a), a) == SimpleFold(db(b), b)
  {
    hide Canon, SimpleFold;
    UnicodeCanon(tab, db, a);
    UnicodeCanon(tab, db, b);
  }

  /** Without u and v a class of ASCII characters accepts only ASCII characters, whatever the case. */
  lemma AsciiClass(f: Folding, items: seq<Item>, ch: int)
    requires TableOk(f.tab) && !f.unicode && f.icase && ch >= 128
    requires forall a :: InClass(items, a) ==> 0 <= a < 128
    ensures !ClassMatches(f, items, false, ch)
  {
    hide Canon, InClass;
    LegacyAscii(f.tab, ch);
    forall a | InClass(items, a) ensures Folded(f, a) != Folded(f, ch) { LegacyAscii(f.tab, a); }
  }
}
