/**
 Character sets that the matcher and its specification name by the same predicates, against their
 definitions in ECMA-262.
 */
module EcmaCharacters {
  import opened RegexpPattern
  import opened CaseFolding
  import opened CaseData

  /** LineTerminator, section 12.3: LF, CR, LS and PS. */
  lemma LineTerminators(c: int)
    ensures IsLineTerminator(c) <==> c in {'\n' as int, '\r' as int, 0x2028, 0x2029}
  {
  }

  /** The basic word characters of WordCharacters, section 22.2.2.9.3. */
  const WORD_CHARACTERS: string := UPPER_CASE + LOWER_CASE + "0123456789_"

  function WordCode(i: int): int
    requires 0 <= i < |WORD_CHARACTERS|
  {
    WORD_CHARACTERS[i] as int
  }

  lemma WordCodeIs(i: int)
    requires 0 <= i < 63
    ensures |WORD_CHARACTERS| == 63
    ensures WordCode(i) == if i < 26 then 65 + i else if i < 52 then 97 + (i - 26) else if i < 62 then 48 + (i - 52) else 95
  {
    if i < 26 { LetterCode(i); } else if i < 52 { LetterCode(i - 26); }
  }

  lemma WordBytes(c: int)
    ensures IsWordByte(c) <==> exists i :: 0 <= i < |WORD_CHARACTERS| && WordCode(i) == c
  {
    hide WordCode;
    if IsWordByte(c) {
      var i := if c <= 57 then c - 48 + 52 else if c <= 90 then c - 65 else if c == 95 then 62 else c - 97 + 26;
      WordCodeIs(i);
    }
    if i :| 0 <= i < |WORD_CHARACTERS| && WordCode(i) == c { WordCodeIs(i); }
  }

  /** What is known of the folding of characters beyond the basic ones: the long s and the Kelvin sign
      fold to s and k, and no other character folds to a basic one. */
  ghost predicate WordFolding(tab: Table) {
    && Canon(tab, 0x17f, true) == 's' as int && Canon(tab, 0x212a, true) == 'k' as int
    && forall c :: 128 <= c < 0x110000 && c != 0x17f && c != 0x212a ==> !FoldsToWord(tab, c)
  }

  ghost predicate FoldsToWord(tab: Table, c: int) { IsWordByte(Canon(tab, c, true)) }

  /** With the u or v and i flags the word characters are those that are basic or fold to a basic one,
      otherwise the basic ones. */
  lemma WordCharacters(tab: Table, c: int)
    requires TableOk(tab) && WordFolding(tab) && 0 <= c < 0x110000
    ensures IsWordChar(c, true) <==> IsWordByte(c) || FoldsToWord(tab, c)
    ensures IsWordChar(c, false) <==> IsWordByte(c)
  {
    hide Canon;
    if c < 128 { assert AsciiAt(tab, c, true); }
  }
}
