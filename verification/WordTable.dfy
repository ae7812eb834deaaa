/** Which bytes make words, told by a table of characters (src/application/lsp.rs). */
module WordTable {
  import opened ByteStrings
  import opened WordRename

  const WordCharacters := "ABCDEFGHIJKLMNOPQRSTUVWXYZ" + "abcdefghijklmnopqrstuvwxyz" + "0123456789" + "_-"

  predicate InTable(b: Byte) { exists i :: 0 <= i < |WordCharacters| && WordCharacters[i] as int == b }

  predicate AllInTable(s: Bytes) { forall i :: 0 <= i < |s| ==> InTable(s[i]) }

  lemma TableRanges(i: nat)
    requires i < |WordCharacters|
    ensures WordCharacters[i] as int ==
      if i < 26 then 0x41 + i else if i < 52 then 0x61 + i - 26 else if i < 62 then 0x30 + i - 52
      else if i == 62 then 0x5F else 0x2D
  {
    Alphabet(if i < 26 then i else if i < 52 then i - 26 else 0);
  }

  lemma Alphabet(i: nat)
    requires i < 26
    ensures "ABCDEFGHIJKLMNOPQRSTUVWXYZ"[i] as int == 0x41 + i
    ensures "abcdefghijklmnopqrstuvwxyz"[i] as int == 0x61 + i
  {}

  lemma WordByteExactly(b: Byte)
    ensures WordByte(b) <==> InTable(b)
  {
    if i :| 0 <= i < |WordCharacters| && WordCharacters[i] as int == b { TableRanges(i); }
    if WordByte(b) {
      var i := if b == 0x2D then 63 else if b == 0x5F then 62 else if b < 0x41 then b - 0x30 + 52
        else if b < 0x61 then b - 0x41 else b - 0x61 + 26;
      TableRanges(i);
    }
  }

  /** A word that a rename accepts: one to 128 characters of the table. */
  lemma IdentifierExactly(value: Bytes)
    ensures Identifier(value) <==> 0 < |value| <= 128 && AllInTable(value)
  {
    hide WordByte, InTable;
    forall i | 0 <= i < |value| ensures WordByte(value[i]) <==> InTable(value[i]) { WordByteExactly(value[i]); }
  }

  /** Inside a run of word bytes only the whole run is a word. */
  lemma WholeInside(text: Bytes, word: Bytes, k: nat)
    requires word != [] && Whole(text, word, k) && forall i :: 0 <= i < |text| ==> WordByte(text[i])
    ensures text == word
  {
    assert k == 0 && k + |word| == |text|;
    assert text[0..|text|] == text;
  }

  /** A text of such characters is one word: a rename leaves it alone unless it is the renamed word. */
  lemma RenameInsideWord(text: Bytes, old': Bytes, new': Bytes)
    requires AllInTable(text) && AllInTable(old') && old' != [] && text != old'
    ensures Renamed(text, old', new', 0) == text
  {
    hide WordByte, InTable;
    forall i | 0 <= i < |text| ensures WordByte(text[i]) { WordByteExactly(text[i]); }
    forall k | 0 <= k < |text| ensures !Whole(text, old', k) {
      if Whole(text, old', k) { WholeInside(text, old', k); }
    }
    Verbatim(text, old', new', 0, |text|);
    RenamedAtEnd(text, old', new');
    assert text[0..|text|] == text;
  }

  lemma SeparatedWords(b: Byte, word: Bytes)
    requires !WordByte(b) && Word(word)
    ensures var text, n := word + [b] + word, |word|;
      Whole(text, word, 0) && !Whole(text, word, n) && text[n] == b && Whole(text, word, n + 1)
  {
    hide WordByte;
    var text, n := word + [b] + word, |word|;
    assert text[0..n] == word && text[n] == b && text[n + 1..n + 1 + n] == word;
    if Matches(text, word, n) { MatchAt(text, word, n, 0); }
  }

  /** Any other byte separates words. */
  lemma RenameAroundSeparator(b: Byte, old': Bytes, new': Bytes)
    requires !InTable(b) && AllInTable(old') && old' != []
    ensures Renamed(old' + [b] + old', old', new', 0) == new' + [b] + new'
  {
    WordByteExactly(b);
    forall i | 0 <= i < |old'| ensures WordByte(old'[i]) { WordByteExactly(old'[i]); }
    SeparatedWords(b, old');
    hide WordByte, InTable, Whole, Renamed;
    var text, n := old' + [b] + old', |old'|;
    RenamedAt(text, old', new', 0);
    RenamedSkip(text, old', new', n);
    RenamedAt(text, old', new', n + 1);
    RenamedAtEnd(text, old', new');
    assert new' + [] == new' && new' + ([b] + new') == new' + [b] + new';
  }
}
