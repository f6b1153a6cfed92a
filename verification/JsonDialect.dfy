/** Where the accepted texts and those of RFC 8259 differ. */
module JsonDialect {
  import opened Bytes
  import opened Numbers
  import opened NumberTexts
  import opened NumberValues
  import opened StringCodec
  import opened Literals
  import opened Json
  import opened JsonParser
  import opened JsonRoundTrip
  import opened JsonGrammar

  /** Every number of RFC 8259 within the room is taken whole, for what it is worth, where nothing that could
      belong to it follows. */
  lemma RfcNumberParses(c: bytes, i: nat, j: nat, v: real, depth: nat)
    requires Terminated(c) && i < j < |c| && j - i <= NUMBER_ROOM && !NumberByte(c[j])
    requires RfcNumber(c[i..j]) && Worth(c[i..j], v)
    ensures Parse(c, i, depth) == Parsed(Number(v), j)
  {
    hide NumberText, NumberByte, Worth;
    RfcStarts(c[i..j]);
    forall m: nat | j < m <= |c| && m - i <= NUMBER_ROOM ensures !NumberText(c[i..m]) {
      assert c[i..m][j - i] == c[j];
      if NumberText(c[i..m]) { NumberTextBytes(c[i..m]); }
    }
    TokenParses(c, i, j, Number(v), depth);
  }

  /** A text that is all number is parsed as that number. */
  lemma TwoByteNumber(t: bytes, v: real)
    requires |t| == 2 && IsDigit(t[0]) && NumberByte(t[1]) && Strtod(t) == Conversion(2, v)
    ensures Terminated(t + [NUL]) && Parse(t + [NUL], 0, 0) == Parsed(Number(v), 2)
  {
    hide Strtod;
    var c := t + [NUL];
    NameIsNot(c, 0);
    assert Span(c, 0, 63) == 1 + Span(c, 1, 62) && Span(c, 1, 62) == 1 + Span(c, 2, 61) && Span(c, 2, 61) == 0;
    assert c[0..2] == t;
  }

  /** 01 is read as 1. */
  lemma LeadingZeroAccepted()
    ensures Parse([48, 49, NUL], 0, 0) == Parsed(Number(1.0), 2) && LeadingZero([48, 49]) && !RfcNumber([48, 49])
  {
    var t: bytes := [48, 49];
    TakenDigits(t);
    hide Parse, Strtod, NumberText;
    TwoByteNumber(t, 1.0);
    TakenIsNumber(t);
    assert t[..2] == t && t + [NUL] == [48, 49, NUL];
    RfcNumberIff(t);
  }

  lemma TakenDigits(t: bytes)
    requires t == [48, 49]
    ensures Strtod(t) == Conversion(2, 1.0)
  {
    assert DigitsEnd(t, 2) == 2 && DigitsEnd(t, 1) == 2 && DigitsEnd(t, 0) == 2;
    assert DigitsValue(t, 2, 2, 1) == 1 && DigitsValue(t, 1, 2, 0) == 1 && DigitsValue(t, 0, 2, 0) == 1;
  }

  /** 1. is read as 1. */
  lemma BarePointAccepted()
    ensures Parse([49, 46, NUL], 0, 0) == Parsed(Number(1.0), 2) && BarePoint([49, 46]) && !RfcNumber([49, 46])
  {
    var t: bytes := [49, 46];
    TakenPoint(t);
    hide Parse, Strtod, NumberText;
    TwoByteNumber(t, 1.0);
    TakenIsNumber(t);
    assert t[..2] == t && t[1] == POINT && t + [NUL] == [49, 46, NUL];
    RfcNumberIff(t);
  }

  lemma TakenPoint(t: bytes)
    requires t == [49, 46]
    ensures Strtod(t) == Conversion(2, 1.0)
  {
    assert DigitsEnd(t, 1) == 1 && DigitsEnd(t, 0) == 1 && DigitsEnd(t, 2) == 2;
    assert DigitsValue(t, 1, 1, 1) == 1 && DigitsValue(t, 0, 1, 0) == 1 && DigitsValue(t, 2, 2, 1) == 1;
    assert Pow10(0) == 1.0;
  }

  /** A \u group of four letters Z is read as a zero byte, which ends the C string. */
  lemma MalformedGroupAccepted()
    ensures Parse([QUOTE, BACKSLASH, 117, 90, 90, 90, 90, QUOTE, NUL], 0, 0) == Parsed(Text([]), 8)
  {
    hide ReadString, Meaning, Closed;
    var c: bytes := [QUOTE, BACKSLASH, 117, 90, 90, 90, 90, QUOTE, NUL];
    var p := Group([90, 90, 90, 90]);
    var t := Literals.Written([p]);
    TextSingle(p);
    InStepCloses([p]);
    assert c[0..8] == [QUOTE] + t + [QUOTE];
    assert !WellFormed(p) by { assert !IsHex(p.digits[0]); }
    BadGroupMeaning(p);
    LiteralReads(c, 0, t, [p]);
    NameIsNot(c, 0);
    assert CString([NUL]) == [];
  }

  /** A raw newline in a string is accepted. */
  lemma ControlCharacterAccepted()
    ensures Parse([QUOTE, NEWLINE, QUOTE, NUL], 0, 0) == Parsed(Text([NEWLINE]), 3) && !RfcString([NEWLINE])
  {
    hide ReadString, Closed;
    var c: bytes := [QUOTE, NEWLINE, QUOTE, NUL];
    var p := Plain(NEWLINE);
    TextSingle(p);
    InStepCloses([p]);
    assert Meaning([]) == Some([]) && [p][1..] == [];
    assert c[0..3] == [QUOTE] + [NEWLINE] + [QUOTE];
    LiteralReads(c, 0, [NEWLINE], [p]);
    RfcStringIff(c, 0, [NEWLINE], [p]);
    NameIsNot(c, 0);
    assert CString([NEWLINE]) == [NEWLINE];
    assert !Tidy([p]) by { assert [p][0].symbol < SPACE; }
  }
}
