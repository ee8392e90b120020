/**
 * A concrete alphabet for the normalizer: the Unicode behaviour of every
 * character of Latin-1 (U+0000 to U+00FF) and of the two further characters
 * that NFKD produces from Latin-1 (U+03BC and U+2044). The combining
 * diacritical marks U+0300 to U+036F are all combining except U+034F; each
 * is its own NFKD form here, which differs from Unicode only for U+0340,
 * U+0341, U+0343 and U+0344, whose decompositions are combining marks that
 * normalization drops all the same. Any other character is left alone by
 * lower-casing and NFKD and is treated as neither \w nor \s.
 */
module Latin1 {
  import opened Normalizer

  predicate IsUpper(c: char)
  {
    'A' <= c <= 'Z' || ('\U{C0}' <= c <= '\U{DE}' && c != '\U{D7}')
  }

  function LowerChar(c: char): char
  {
    if IsUpper(c) then (c as int + 32) as char else c
  }

  /** str.lower() on one character. */
  function Lower(c: char): string { [LowerChar(c)] }

  const Grave := '\U{300}'
  const Acute := '\U{301}'
  const Circumflex := '\U{302}'
  const Tilde := '\U{303}'
  const Macron := '\U{304}'
  const Diaeresis := '\U{308}'
  const Ring := '\U{30A}'
  const Cedilla := '\U{327}'
  const Micro := '\U{3BC}'       // GREEK SMALL LETTER MU
  const FractionSlash := '\U{2044}'

  /** The canonical decomposition of a lower-case accented Latin-1 letter; [c] for any other character. */
  function DecomposeLower(c: char): string
  {
    if '\U{E0}' <= c <= '\U{E5}' then ['a', [Grave, Acute, Circumflex, Tilde, Diaeresis, Ring][c as int - 0xE0]]
    else if c == '\U{E7}' then ['c', Cedilla]
    else if '\U{E8}' <= c <= '\U{EB}' then ['e', [Grave, Acute, Circumflex, Diaeresis][c as int - 0xE8]]
    else if '\U{EC}' <= c <= '\U{EF}' then ['i', [Grave, Acute, Circumflex, Diaeresis][c as int - 0xEC]]
    else if c == '\U{F1}' then ['n', Tilde]
    else if '\U{F2}' <= c <= '\U{F6}' then ['o', [Grave, Acute, Circumflex, Tilde, Diaeresis][c as int - 0xF2]]
    else if '\U{F9}' <= c <= '\U{FC}' then ['u', [Grave, Acute, Circumflex, Diaeresis][c as int - 0xF9]]
    else if c == '\U{FD}' then ['y', Acute]
    else if c == '\U{FF}' then ['y', Diaeresis]
    else [c]
  }

  /** NFKD on one character. */
  function Decompose(c: char): string
  {
    if c < '\U{A0}' || c > '\U{FF}' then [c]
    else if '\U{E0}' <= c then DecomposeLower(c)
    else if IsUpper(c) && c >= '\U{C0}' then
      var d := DecomposeLower(LowerChar(c));
      if |d| == 2 then [(d[0] as int - 32) as char, d[1]] else [c]
    else if c == '\U{A0}' then " "
    else if c == '\U{A8}' then [' ', Diaeresis]
    else if c == '\U{AA}' then "a"
    else if c == '\U{AF}' then [' ', Macron]
    else if c == '\U{B2}' then "2"
    else if c == '\U{B3}' then "3"
    else if c == '\U{B4}' then [' ', Acute]
    else if c == '\U{B5}' then [Micro]
    else if c == '\U{B8}' then [' ', Cedilla]
    else if c == '\U{B9}' then "1"
    else if c == '\U{BA}' then "o"
    else if c == '\U{BC}' then ['1', FractionSlash, '4']
    else if c == '\U{BD}' then ['1', FractionSlash, '2']
    else if c == '\U{BE}' then ['3', FractionSlash, '4']
    else [c]
  }

  predicate Combining(c: char)
  {
    '\U{300}' <= c <= '\U{36F}' && c != '\U{34F}'
  }

  predicate Word(c: char)
  {
    || 'a' <= c <= 'z' || 'A' <= c <= 'Z' || '0' <= c <= '9' || c == '_'
    || c in {'\U{AA}', '\U{B2}', '\U{B3}', '\U{B5}', '\U{B9}', '\U{BA}', '\U{BC}', '\U{BD}', '\U{BE}'}
    || ('\U{C0}' <= c <= '\U{FF}' && c != '\U{D7}' && c != '\U{F7}')
    || c == Micro
  }

  predicate Space(c: char)
  {
    '\t' <= c <= '\r' || '\U{1C}' <= c <= '\U{1F}' || c == ' ' || c == '\U{85}' || c == '\U{A0}'
  }

  const Table: Alphabet := Alphabet(Lower, Decompose, Combining, Word, Space)

  /** The Latin-1 alphabet meets the hypothesis under which normalization is idempotent. */
  lemma TableIsStable()
    ensures Stable(Table)
  {
    forall c, f, d |
      f in Table.lower(c) && d in Table.decompose(Dehyphen(f)) && Table.word(d) && !Table.space(d) && !Table.combining(d)
      ensures Settled(Table, d)
    {
      assert f == LowerChar(c);
      assert !IsUpper(Dehyphen(f));
    }
  }

  /** An ASCII character lowers to one character that decomposes to itself. */
  lemma AsciiCharIsKept(c: char, d: char)
    requires c < '\U{80}' && d in Table.decompose(Dehyphen(LowerChar(c)))
    ensures d == Dehyphen(LowerChar(c)) && d < '\U{80}' && !('A' <= d <= 'Z')
  {
    var g := Dehyphen(LowerChar(c));
    assert g < '\U{80}';
    assert Table.decompose(g) == [g];
  }

  /** Over ASCII input, a normalized name is made of lower-case letters, digits, underscores and blanks. */
  lemma AsciiNormalizesToWordsAndBlanks(name: string, d: char)
    requires forall c :: c in name ==> c < '\U{80}'
    requires d in Normalize(Table, name)
    ensures 'a' <= d <= 'z' || '0' <= d <= '9' || d == '_' || d == ' '
  {
    if d != ' ' {
      NormalizeOrigin(Table, name, d);
      AsciiOriginIsKept(name, d);
    }
  }

  /** A character that cleaning draws from ASCII input is a lower-case letter, a digit or an underscore. */
  lemma AsciiOriginIsKept(name: string, d: char)
    requires forall c :: c in name ==> c < '\U{80}'
    requires Table.word(d) && !Table.space(d)
    requires exists c, f :: c in name && f in Table.lower(c) && d in Table.decompose(Dehyphen(f))
    ensures 'a' <= d <= 'z' || '0' <= d <= '9' || d == '_'
  {
    var c, f :| c in name && f in Table.lower(c) && d in Table.decompose(Dehyphen(f));
    assert f == LowerChar(c);
    AsciiCharIsKept(c, d);
  }

  /** Over the Latin-1 alphabet, and so over ASCII, normalizing twice is normalizing once. */
  lemma NormalizeIdempotentLatin1(name: string)
    ensures Normalize(Table, Normalize(Table, name)) == Normalize(Table, name)
  {
    TableIsStable();
    NormalizeIdempotent(Table, name);
  }

  /** Text that lower-cases to lower-case ASCII letters and blanks passes the remaining cleaning steps unchanged. */
  lemma CleanedOfLowered(s: string, l: string)
    requires Lowered(Table, s) == l
    requires forall c :: c in l ==> 'a' <= c <= 'z' || c == ' '
    ensures Cleaned(Table, s) == l
  {
    Strings.FlatMapIdentity(HyphenToSpace, l);
    Strings.FlatMapIdentity(Table.decompose, l);
    Strings.FilterIdentity(NotCombining(Table), l);
    Strings.FilterIdentity(WordOrSpace(Table), l);
  }

  /** Lowering and decomposing an accented letter gives its base letter and one mark. */
  lemma AccentDecomposes(c: char)
    requires |DecomposeLower(LowerChar(c))| == 2
    ensures Decomposed(Table, Dehyphenated(Table.lower(c))) == DecomposeLower(LowerChar(c))
  {
    var l := LowerChar(c);
    assert '\U{E0}' <= l <= '\U{FF}';
    assert Table.lower(c) == [l];
    Strings.FlatMapSingle(HyphenToSpace, l);
    Strings.FlatMapSingle(Table.decompose, l);
  }

  /** Stripping the mark after a base letter leaves the letter. */
  lemma MarkIsStripped(b: char, m: char)
    requires 'a' <= b <= 'z' && Combining(m)
    ensures WordsAndSpaces(Table, Unmarked(Table, [b, m])) == [b]
  {
    assert !Table.combining(b) && Table.combining(m) && Table.word(b);
    Strings.FilterAppend(NotCombining(Table), [b], [m]);
    assert [b, m] == [b] + [m];
    Strings.FilterSingle(NotCombining(Table), b);
    Strings.FilterSingle(NotCombining(Table), m);
    Strings.FilterSingle(WordOrSpace(Table), b);
  }

  /** An accented letter, upper- or lower-case, cleans to its lower-case base letter. */
  lemma AccentedCleansToBase(c: char)
    requires |DecomposeLower(LowerChar(c))| == 2
    ensures Cleaned(Table, [c]) == [DecomposeLower(LowerChar(c))[0]]
  {
    var d := DecomposeLower(LowerChar(c));
    assert 'a' <= d[0] <= 'z' && Combining(d[1]);
    CleanedSingle(Table, c);
    AccentDecomposes(c);
    assert d == [d[0], d[1]];
    MarkIsStripped(d[0], d[1]);
  }

  /** A lower-case ASCII letter cleans to itself. */
  lemma LetterCleansToItself(b: char)
    requires 'a' <= b <= 'z'
    ensures Cleaned(Table, [b]) == [b]
  {
    CleanedSingle(Table, b);
    Strings.FlatMapSingle(HyphenToSpace, b);
    Strings.FlatMapSingle(Table.decompose, b);
    Strings.FilterSingle(NotCombining(Table), b);
    Strings.FilterSingle(WordOrSpace(Table), b);
  }

  /** Any upper- or lower-case accented Latin-1 letter may be replaced by its base letter. */
  lemma AccentIsStripped(x: string, c: char, y: string)
    requires |DecomposeLower(LowerChar(c))| == 2
    ensures Normalize(Table, x + [c] + y) == Normalize(Table, x + [DecomposeLower(LowerChar(c))[0]] + y)
  {
    var b := DecomposeLower(LowerChar(c))[0];
    AccentedCleansToBase(c);
    LetterCleansToItself(b);
    SameCleaningSameName(Table, x, c, b, y);
  }

  /** s is made of lower-case ASCII letters only. */
  predicate LowerWord(s: string)
  {
    s == [] || ('a' <= s[0] <= 'z' && LowerWord(s[1..]))
  }

  lemma {:induction false} LowerWordLetters(s: string)
    requires LowerWord(s)
    ensures forall c :: c in s ==> 'a' <= c <= 'z'
  {
    if s != [] {
      LowerWordLetters(s[1..]);
      assert s == [s[0]] + s[1..];
    }
  }

  lemma {:induction false} LowerWordIsSpaceless(s: string)
    requires LowerWord(s)
    ensures Spaceless(Table, s)
  {
    if s != [] {
      LowerWordIsSpaceless(s[1..]);
    }
  }

  /** Lower-case ASCII words are tidy, alone or two of them joined by a blank. */
  lemma LowerWordsAreTidy(a: string, b: string)
    requires LowerWord(a) && LowerWord(b)
    ensures Tidy(Table, a)
    ensures a != "" && b != "" ==> Tidy(Table, a + " " + b)
  {
    LowerWordLetters(a);
    LowerWordLetters(b);
    SpacelessIsTidy(Table, a);
    if a != "" && b != "" {
      TwoWordsAreTidy(Table, a, b);
    }
  }

  /** A name that lower-cases to a lower-case ASCII word normalizes to that word. */
  lemma NormalizesToLowerWord(s: string, a: string)
    requires a != "" && Lowered(Table, s) == a && LowerWord(a)
    ensures Normalize(Table, s) == a
  {
    assert s != "";
    LowerWordLetters(a);
    CleanedOfLowered(s, a);
    LowerWordsAreTidy(a, "");
    NormalizeOfTidyCleaned(Table, s);
  }

  /**
   * Two names that lower-case to lower-case ASCII words normalize, joined by
   * a blank, to the two words joined by a blank.
   */
  lemma NormalizesToLowerWords(x: string, y: string, a: string, b: string)
    requires a != "" && b != "" && LowerWord(a) && LowerWord(b)
    requires Lowered(Table, x) == a && Lowered(Table, y) == b
    ensures Normalize(Table, x + " " + y) == a + " " + b
  {
    var s := x + " " + y;
    assert Lowered(Table, " ") == " ";
    Strings.FlatMapAppend(Table.lower, x, " ");
    Strings.FlatMapAppend(Table.lower, x + " ", y);
    assert Lowered(Table, s) == a + " " + b;
    LowerWordLetters(a);
    LowerWordLetters(b);
    CleanedOfLowered(s, a + " " + b);
    LowerWordsAreTidy(a, b);
    NormalizeOfTidyCleaned(Table, s);
  }

  // Lower-casing the words of the examples, one word per lemma.

  lemma LoweredSmith()
    ensures Lowered(Table, "Smith") == "smith"
  {
  }

  lemma LoweredJones()
    ensures Lowered(Table, "Jones") == "jones"
  {
  }

  lemma LoweredMohamed()
    ensures Lowered(Table, "Mohamed") == "mohamed"
  {
  }

  lemma LoweredSalah()
    ensures Lowered(Table, "Salah") == "salah"
  {
  }

  lemma LoweredMo()
    ensures Lowered(Table, "Mo") == "mo"
  {
  }

  lemma LettersExample()
    ensures Normalize(Table, "OBrien") == "obrien"
  {
    assert Lowered(Table, "OBrien") == "obrien";
    NormalizesToLowerWord("OBrien", "obrien");
  }

  lemma SmithJonesExample()
    ensures Normalize(Table, "Smith Jones") == "smith jones"
  {
    assert "Smith" + " " + "Jones" == "Smith Jones";
    assert "smith" + " " + "jones" == "smith jones";
    LoweredSmith();
    LoweredJones();
    NormalizesToLowerWords("Smith", "Jones", "smith", "jones");
  }

  /** An apostrophe is deleted and the letters are lower-cased. */
  lemma ApostropheExample()
    ensures Normalize(Table, "O'Brien") == "obrien"
  {
    assert "O" + ['\''] + "Brien" == "O'Brien";
    assert "O" + "Brien" == "OBrien";
    PunctuationIsDeleted(Table, "O", '\'', "Brien");
    LettersExample();
  }

  /** A hyphen separates the two parts of a double-barrelled name. */
  lemma HyphenExample()
    ensures Normalize(Table, "Smith-Jones") == "smith jones"
  {
    assert "Smith" + "-" + "Jones" == "Smith-Jones";
    assert "Smith" + " " + "Jones" == "Smith Jones";
    HyphenIsSeparator(Table, "Smith", "Jones");
    SmithJonesExample();
  }

  lemma LoweredO()
    ensures Lowered(Table, "O") == "o"
  {
  }

  lemma LoweredBrien()
    ensures Lowered(Table, "Brien") == "brien"
  {
  }

  /** The spacing acute cleans to a blank, as a blank does. */
  lemma SpacingAcuteCleansToBlank()
    ensures Cleaned(Table, ['\U{B4}']) == " " && Cleaned(Table, " ") == " "
  {
    var c := '\U{B4}';
    Strings.FlatMapSingle(Table.lower, c);
    Strings.FlatMapSingle(HyphenToSpace, c);
    Strings.FlatMapSingle(Table.decompose, c);
    assert Decomposed(Table, Dehyphenated(Lowered(Table, [c]))) == [' '] + [Acute];
    BlankThenMarkCleans();
    Strings.FlatMapSingle(Table.lower, ' ');
    Strings.FlatMapSingle(HyphenToSpace, ' ');
    Strings.FlatMapSingle(Table.decompose, ' ');
    Strings.FilterSingle(NotCombining(Table), ' ');
    Strings.FilterSingle(WordOrSpace(Table), ' ');
  }

  /** Dropping the mark after a blank leaves the blank. */
  lemma BlankThenMarkCleans()
    ensures WordsAndSpaces(Table, Unmarked(Table, [' '] + [Acute])) == " "
  {
    assert !Table.combining(' ') && Table.combining(Acute) && Table.space(' ');
    Strings.FilterAppend(NotCombining(Table), [' '], [Acute]);
    Strings.FilterSingle(NotCombining(Table), ' ');
    Strings.FilterSingle(NotCombining(Table), Acute);
    Strings.FilterSingle(WordOrSpace(Table), ' ');
  }

  /**
   * A spacing accent is not deleted as other punctuation is: NFKD turns it
   * into a blank and a combining mark, so it separates words.
   */
  lemma SpacingAccentExample()
    ensures Normalize(Table, "O\U{B4}Brien") == "o brien"
  {
    assert "O" + ['\U{B4}'] + "Brien" == "O\U{B4}Brien";
    assert "O" + [' '] + "Brien" == "O" + " " + "Brien";
    assert "o" + " " + "brien" == "o brien";
    SpacingAcuteCleansToBlank();
    SameCleaningSameName(Table, "O", '\U{B4}', ' ', "Brien");
    LoweredO();
    LoweredBrien();
    NormalizesToLowerWords("O", "Brien", "o", "brien");
  }

  lemma AccentStep1()
    ensures Normalize(Table, "Jos\U{E9} N\U{FA}\U{F1}ez") == Normalize(Table, "Jose N\U{FA}\U{F1}ez")
  {
    assert "Jos" + ['\U{E9}'] + " N\U{FA}\U{F1}ez" == "Jos\U{E9} N\U{FA}\U{F1}ez";
    assert "Jos" + ['e'] + " N\U{FA}\U{F1}ez" == "Jose N\U{FA}\U{F1}ez";
    AccentIsStripped("Jos", '\U{E9}', " N\U{FA}\U{F1}ez");
  }

  lemma AccentStep2()
    ensures Normalize(Table, "Jose N\U{FA}\U{F1}ez") == Normalize(Table, "Jose Nu\U{F1}ez")
  {
    assert "Jose N" + ['\U{FA}'] + "\U{F1}ez" == "Jose N\U{FA}\U{F1}ez";
    assert "Jose N" + ['u'] + "\U{F1}ez" == "Jose Nu\U{F1}ez";
    AccentIsStripped("Jose N", '\U{FA}', "\U{F1}ez");
  }

  lemma AccentStep3()
    ensures Normalize(Table, "Jose Nu\U{F1}ez") == Normalize(Table, "Jose Nunez")
  {
    assert "Jose Nu" + ['\U{F1}'] + "ez" == "Jose Nu\U{F1}ez";
    assert "Jose Nu" + ['n'] + "ez" == "Jose Nunez";
    AccentIsStripped("Jose Nu", '\U{F1}', "ez");
  }

  /** Accents are stripped. */
  lemma AccentExample()
    ensures Normalize(Table, "Jos\U{E9} N\U{FA}\U{F1}ez") == Normalize(Table, "Jose Nunez")
  {
    AccentStep1();
    AccentStep2();
    AccentStep3();
  }

  /** The names of the end-to-end example. */
  lemma MohamedSalahName()
    ensures Normalize(Table, "Mohamed Salah") == "mohamed salah"
  {
    assert "Mohamed" + " " + "Salah" == "Mohamed Salah";
    assert "mohamed" + " " + "salah" == "mohamed salah";
    LoweredMohamed();
    LoweredSalah();
    NormalizesToLowerWords("Mohamed", "Salah", "mohamed", "salah");
  }

  lemma SalahName()
    ensures Normalize(Table, "Salah") == "salah"
  {
    LoweredSalah();
    NormalizesToLowerWord("Salah", "salah");
  }

  lemma MoSalahName()
    ensures Normalize(Table, "Mo Salah") == "mo salah"
  {
    assert "Mo" + " " + "Salah" == "Mo Salah";
    assert "mo" + " " + "salah" == "mo salah";
    LoweredMo();
    LoweredSalah();
    NormalizesToLowerWords("Mo", "Salah", "mo", "salah");
  }

  /** s is made of blanks only. */
  predicate Blanks(s: string)
  {
    s == [] || (s[0] == ' ' && Blanks(s[1..]))
  }

  lemma {:induction false} BlanksAt(s: string)
    requires Blanks(s)
    ensures forall c :: c in s ==> c == ' '
  {
    if s != [] {
      BlanksAt(s[1..]);
      assert s == [s[0]] + s[1..];
    }
  }

  lemma {:induction false} BlanksLowered(s: string)
    requires Blanks(s)
    ensures Lowered(Table, s) == s
  {
    if s != [] {
      BlanksLowered(s[1..]);
      assert s == [s[0]] + s[1..];
      Strings.FlatMapAppend(Table.lower, [s[0]], s[1..]);
    }
  }

  lemma {:induction false} BlanksAreSpace(s: string)
    requires Blanks(s)
    ensures AllSpace(Table, s)
  {
    if s != [] {
      BlanksAreSpace(s[1..]);
    }
  }

  /** A name that lower-cases to a lower-case ASCII word after a run of blanks normalizes to the word. */
  lemma NormalizesToPaddedWord(w: string, x: string, a: string)
    requires a != "" && LowerWord(a) && Lowered(Table, x) == a
    requires Blanks(w)
    ensures Normalize(Table, w + x) == a
  {
    PaddedWordCleaned(w, x, a);
    LowerWordIsSpaceless(a);
    BlanksAreSpace(w);
    assert w + x != "" by {
      assert x != "";
    }
    NormalizeOneWord(Table, w + x, w, a, "");
  }

  lemma PaddedWordCleaned(w: string, x: string, a: string)
    requires LowerWord(a) && Lowered(Table, x) == a && Blanks(w)
    ensures Cleaned(Table, w + x) == w + a + ""
  {
    BlanksLowered(w);
    Strings.FlatMapAppend(Table.lower, w, x);
    LowerWordLetters(a);
    BlanksAt(w);
    CleanedOfLowered(w + x, w + a);
    assert w + a + "" == w + a;
  }

  /**
   * Two names that lower-case to lower-case ASCII words, separated by a run of
   * blanks, normalize to the two words joined by one blank.
   */
  lemma NormalizesToSpacedWords(x: string, w: string, y: string, a: string, b: string)
    requires a != "" && b != "" && LowerWord(a) && LowerWord(b)
    requires Lowered(Table, x) == a && Lowered(Table, y) == b
    requires w != "" && Blanks(w)
    ensures Normalize(Table, x + w + y) == a + " " + b
  {
    SpacedWordsCleaned(x, w, y, a, b);
    LowerWordIsSpaceless(a);
    LowerWordIsSpaceless(b);
    BlanksAreSpace(w);
    Unpadded(a, w, b);
    NormalizeTwoWords(Table, x + w + y, [], a, w, b, []);
  }

  lemma SpacedWordsCleaned(x: string, w: string, y: string, a: string, b: string)
    requires LowerWord(a) && LowerWord(b) && Blanks(w)
    requires Lowered(Table, x) == a && Lowered(Table, y) == b
    ensures Cleaned(Table, x + w + y) == a + w + b
  {
    BlanksLowered(w);
    Strings.FlatMapAppend(Table.lower, x, w);
    Strings.FlatMapAppend(Table.lower, x + w, y);
    LowerWordLetters(a);
    LowerWordLetters(b);
    BlanksAt(w);
    CleanedOfLowered(x + w + y, a + w + b);
  }

  lemma Unpadded(a: string, w: string, b: string)
    ensures [] + a + w + b + [] == a + w + b
  {
  }

  /** Whitespace before a name does not survive. */
  lemma PaddedSalahName()
    ensures Normalize(Table, "  Salah") == "salah"
  {
    assert "  Salah" == "  " + "Salah";
    LoweredSalah();
    NormalizesToPaddedWord("  ", "Salah", "salah");
  }

  /** A run of blanks between two words becomes one blank. */
  lemma SpacedMoSalahName()
    ensures Normalize(Table, "Mo  Salah") == "mo salah"
  {
    assert "Mo  Salah" == "Mo" + "  " + "Salah";
    assert "mo salah" == "mo" + " " + "salah";
    LoweredMo();
    LoweredSalah();
    NormalizesToSpacedWords("Mo", "  ", "Salah", "mo", "salah");
  }
}
