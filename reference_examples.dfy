/**
 * The reference configuration of the repository's test suite (a space for a
 * space, `N` for any digit, `A` for any upper-case letter; five valid
 * formats), the answers the suite expects of it, and a config with
 * overlapping targets that shows the first-match rule.
 */
module ReferenceExamples {

  import opened Wrappers
  import opened EncodingConfig
  import opened EncodingValidator

  const DIGITS := "0123456789"
  const UPPERCASE := "ABCDEFGHIJKLMNOPQRSTUVWXYZ"

  /** The config built by the test suite's fixture. */
  function Reference(): (c: Config)
    ensures |c.pairs| == 3 && |c.formats| == 5
  {
    NewConfig(
      [Pair(" ", Lit(' ')), Pair("N", OneOf(DIGITS)), Pair("A", OneOf(UPPERCASE))],
      ["AN ", "NA ", " AN", "NNN", "AAA"])
  }

  /** The digit list of the reference config holds exactly the characters `0` to `9`. */
  lemma DigitsAreTheDigits(ch: char)
    ensures ch in DIGITS <==> '0' <= ch <= '9'
  {
  }

  /** The letter list of the reference config holds exactly the characters `A` to `Z`. */
  lemma UppercaseAreTheLetters(ch: char)
    ensures ch in UPPERCASE <==> 'A' <= ch <= 'Z'
  {
  }

  /** The class of each character under the reference config. */
  lemma ReferenceClassOf(ch: char)
    ensures Lookup(Reference().pairs, ch) ==
      if ch == ' ' then Encoded(" ")
      else if '0' <= ch <= '9' then Encoded("N")
      else if 'A' <= ch <= 'Z' then Encoded("A")
      else Unencodable(ch)
  {
    var pairs := Reference().pairs;
    DigitsAreTheDigits(ch);
    UppercaseAreTheLetters(ch);
    var rest := [Pair("N", OneOf(DIGITS)), Pair("A", OneOf(UPPERCASE))];
    var last := [Pair("A", OneOf(UPPERCASE))];
    assert pairs[1..] == rest && rest[1..] == last && last[1..] == [];
    assert Lookup(last, ch) == if 'A' <= ch <= 'Z' then Encoded("A") else Unencodable(ch);
    assert Lookup(rest, ch) == if '0' <= ch <= '9' then Encoded("N") else Lookup(last, ch);
  }

  /** A three-character string whose characters all encode is encoded as their codes in order. */
  lemma EncodeThree(pairs: seq<Pair>, a: char, b: char, c: char, ka: string, kb: string, kc: string)
    requires Lookup(pairs, a) == Encoded(ka) && Lookup(pairs, b) == Encoded(kb) && Lookup(pairs, c) == Encoded(kc)
    ensures Encode(pairs, [a, b, c]) == Encoded(ka + kb + kc)
  {
    var s1, s2, s3: string := [a], [a, b], [a, b, c];
    assert s1[..0] == [] && s2[..1] == s1 && s3[..2] == s2;
    assert "" + ka == ka;
    assert Encode(pairs, s1) == Encoded(ka);
    assert Encode(pairs, s2) == Encoded(ka + kb);
  }

  /** A string whose first character does not encode fails on that character. */
  lemma EncodeFirstFails(pairs: seq<Pair>, s: string)
    requires |s| > 0 && Lookup(pairs, s[0]).Unencodable?
    ensures Encode(pairs, s) == Unencodable(s[0])
  {
  }

  /**
   * The verdict on a three-character string whose characters have the
   * one-character codes `ka`, `kb` and `kc`: accepted exactly when those codes
   * in order form a valid format.
   */
  lemma VerdictThree(cfg: Config, a: char, b: char, c: char, ka: char, kb: char, kc: char)
    requires Lookup(cfg.pairs, a) == Encoded([ka])
    requires Lookup(cfg.pairs, b) == Encoded([kb])
    requires Lookup(cfg.pairs, c) == Encoded([kc])
    ensures Accepts(cfg, Some([a, b, c])) <==> [ka, kb, kc] in cfg.formats
  {
    EncodeThree(cfg.pairs, a, b, c, [ka], [kb], [kc]);
    assert [ka] + [kb] + [kc] == [ka, kb, kc];
    AcceptsIffEncodesToFormat(cfg, [a, b, c]);
  }

  /** The code the reference config gives a space, a digit or an upper-case letter. */
  function ReferenceCode(ch: char): char
    requires ch == ' ' || '0' <= ch <= '9' || 'A' <= ch <= 'Z'
  {
    if ch == ' ' then ' ' else if '0' <= ch <= '9' then 'N' else 'A'
  }

  /** The reference config's verdict on three encodable characters. */
  lemma ReferenceVerdict(a: char, b: char, c: char)
    requires a == ' ' || '0' <= a <= '9' || 'A' <= a <= 'Z'
    requires b == ' ' || '0' <= b <= '9' || 'A' <= b <= 'Z'
    requires c == ' ' || '0' <= c <= '9' || 'A' <= c <= 'Z'
    ensures Accepts(Reference(), Some([a, b, c])) <==>
      [ReferenceCode(a), ReferenceCode(b), ReferenceCode(c)] in Reference().formats
  {
    ReferenceClassOf(a);
    ReferenceClassOf(b);
    ReferenceClassOf(c);
    VerdictThree(Reference(), a, b, c, ReferenceCode(a), ReferenceCode(b), ReferenceCode(c));
  }

  /** The strings the test suite expects to be accepted. */
  lemma ReferenceAccepted()
    ensures Accepts(Reference(), Some("F1 "))
    ensures Accepts(Reference(), Some("1F "))
    ensures Accepts(Reference(), Some(" F1"))
    ensures Accepts(Reference(), Some("123"))
    ensures Accepts(Reference(), Some("ABC"))
  {
    ReferenceVerdict('F', '1', ' ');
    ReferenceVerdict('1', 'F', ' ');
    ReferenceVerdict(' ', 'F', '1');
    ReferenceVerdict('1', '2', '3');
    ReferenceVerdict('A', 'B', 'C');
  }

  /** The strings the test suite expects to be rejected although they encode. */
  lemma ReferenceRejectedFormats()
    ensures !Accepts(Reference(), Some("F11"))
    ensures !Accepts(Reference(), Some("11F"))
    ensures !Accepts(Reference(), Some("  F"))
    ensures !Accepts(Reference(), Some("   "))
  {
    ReferenceVerdict('F', '1', '1');
    ReferenceVerdict('1', '1', 'F');
    ReferenceVerdict(' ', ' ', 'F');
    ReferenceVerdict(' ', ' ', ' ');
  }

  /** The inputs the test suite expects to be rejected because they do not encode or are absent. */
  lemma ReferenceRejectedInputs()
    ensures Encode(Reference().pairs, "!23") == Unencodable('!')
    ensures !Accepts(Reference(), Some("!23"))
    ensures !Accepts(Reference(), Some("\U{00C2}\U{00A3}^("))
    ensures !Accepts(Reference(), None)
    ensures !Accepts(Reference(), Some(""))
  {
    var c := Reference();
    ReferenceClassOf('!');
    ReferenceClassOf('\U{00C2}');
    EncodeFirstFails(c.pairs, "!23");
    EncodeFirstFails(c.pairs, "\U{00C2}\U{00A3}^(");
    AcceptsIffEncodesToFormat(c, "!23");
    AcceptsIffEncodesToFormat(c, "\U{00C2}\U{00A3}^(");
    EmptyStringValidIffListed(Validator(c));
  }

  /**
   * With overlapping targets the earlier pair wins: `1` is both a literal of
   * the first pair and a digit of the second, and encodes by the first.
   */
  lemma OverlapFirstPairWins()
    ensures Lookup([Pair("X", Lit('1')), Pair("N", OneOf(DIGITS))], '1') == Encoded("X")
    ensures Lookup([Pair("X", Lit('1')), Pair("N", OneOf(DIGITS))], '2') == Encoded("N")
    ensures Lookup([Pair("N", OneOf(DIGITS)), Pair("X", Lit('1'))], '1') == Encoded("N")
  {
  }
}
