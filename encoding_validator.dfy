/**
 * The encoding validator: encodes a character by the first matching pair of
 * its config, encodes a string character by character, and accepts a string
 * when its encoding is exactly one of the config's valid formats.
 */
module EncodingValidator {

  import opened Wrappers
  import opened EncodingConfig

  /** A validator holds one config and nothing else. */
  datatype Validator = Validator(config: Config)

  /** The right-hand side of `==`: another validator, or an object of any other class. */
  datatype ValidatorOperand = AValidator(validator: Validator) | NotAValidator

  /**
   * The outcome of encoding: the code, or the failure (Python raises
   * `ValueError`) naming the character that no pair matches.
   */
  datatype Encoding = Encoded(code: string) | Unencodable(ch: char)

  /** Whether a pair's value matches `c`: equal to it, or a list containing it. */
  predicate Matches(t: Target, c: char) {
    match t
    case Lit(x) => x == c
    case OneOf(xs) => c in xs
  }

  /** `i` is the position of the first pair in `pairs` that matches `c`. */
  ghost predicate FirstMatchAt(pairs: seq<Pair>, c: char, i: int) {
    && 0 <= i < |pairs|
    && Matches(pairs[i].target, c)
    && forall j :: 0 <= j < i ==> !Matches(pairs[j].target, c)
  }

  /** First-match search over the ordered pairs, as `encode_char` performs it. */
  function Lookup(pairs: seq<Pair>, c: char): (r: Encoding)
    ensures r.Unencodable? ==> r.ch == c
  {
    if pairs == [] then Unencodable(c)
    else if Matches(pairs[0].target, c) then Encoded(pairs[0].key)
    else Lookup(pairs[1..], c)
  }

  /**
   * `Lookup` gives the key of the earliest pair that matches `c`, and fails,
   * naming `c`, exactly when no pair matches it.
   */
  lemma {:induction false} LookupIsFirstMatch(pairs: seq<Pair>, c: char)
    ensures Lookup(pairs, c).Unencodable? <==> forall i :: 0 <= i < |pairs| ==> !Matches(pairs[i].target, c)
    ensures Lookup(pairs, c).Encoded? ==> exists i :: FirstMatchAt(pairs, c, i) && Lookup(pairs, c).code == pairs[i].key
  {
    if pairs == [] {
    } else if Matches(pairs[0].target, c) {
      assert FirstMatchAt(pairs, c, 0);
    } else {
      LookupIsFirstMatch(pairs[1..], c);
      if Lookup(pairs, c).Encoded? {
        var i :| FirstMatchAt(pairs[1..], c, i) && Lookup(pairs, c).code == pairs[1..][i].key;
        assert FirstMatchAt(pairs, c, i + 1);
      }
    }
  }

  /**
   * `encode_char`: scans the pairs in order and returns at the first match;
   * raises when no pair matches.
   */
  method EncodeChar(v: Validator, c: char) returns (r: Encoding)
    ensures r == Lookup(v.config.pairs, c)
  {
    var pairs := v.config.pairs;
    var i := 0;
    while i < |pairs|
      invariant 0 <= i <= |pairs|
      invariant Lookup(pairs[i..], c) == Lookup(pairs, c)
    {
      var p := pairs[i];
      match p.target {
        case Lit(x) =>
          if x == c {
            return Encoded(p.key);
          }
        case OneOf(xs) =>
          if c in xs {
            return Encoded(p.key);
          }
      }
      assert pairs[i..][1..] == pairs[i + 1..];
      i := i + 1;
    }
    return Unencodable(c);
  }

  /** The parts joined in order, as `"".join(parts)`. */
  function Join(parts: seq<string>): (r: string)
    ensures (forall i :: 0 <= i < |parts| ==> |parts[i]| == 1) ==> |r| == |parts|
  {
    if parts == [] then "" else Join(parts[..|parts| - 1]) + parts[|parts| - 1]
  }

  /**
   * The encoding of `s`, all or nothing: the codes of its characters joined
   * left to right, or the failure of its leftmost unencodable character.
   */
  function Encode(pairs: seq<Pair>, s: string): Encoding
  {
    if s == [] then Encoded("")
    else
      match Encode(pairs, s[..|s| - 1])
      case Unencodable(ch) => Unencodable(ch)
      case Encoded(prefix) =>
        match Lookup(pairs, s[|s| - 1])
        case Unencodable(ch) => Unencodable(ch)
        case Encoded(k) => Encoded(prefix + k)
  }

  /** Every character of `s` is matched by some pair. */
  ghost predicate Encodable(pairs: seq<Pair>, s: string) {
    forall i :: 0 <= i < |s| ==> Lookup(pairs, s[i]).Encoded?
  }

  /** The code of each character of `s`, in order. */
  ghost function Codes(pairs: seq<Pair>, s: string): (ks: seq<string>)
    requires Encodable(pairs, s)
    ensures |ks| == |s|
    ensures forall i :: 0 <= i < |s| ==> Lookup(pairs, s[i]) == Encoded(ks[i])
  {
    seq(|s|, i requires 0 <= i < |s| => Lookup(pairs, s[i]).code)
  }

  /** `i` is the position of the leftmost character of `s` that no pair matches. */
  ghost predicate FirstUnencodableAt(pairs: seq<Pair>, s: string, i: int) {
    && 0 <= i < |s|
    && Lookup(pairs, s[i]).Unencodable?
    && forall j :: 0 <= j < i ==> Lookup(pairs, s[j]).Encoded?
  }

  /** `Encode` succeeds exactly when every character of `s` is encodable. */
  lemma {:induction false} EncodeSucceedsIff(pairs: seq<Pair>, s: string)
    ensures Encode(pairs, s).Encoded? <==> Encodable(pairs, s)
  {
    if s != [] {
      var init := s[..|s| - 1];
      EncodeSucceedsIff(pairs, init);
      assert forall i :: 0 <= i < |init| ==> init[i] == s[i];
    }
  }

  /** A successful `Encode` is the join, in input order, of the codes of the characters. */
  lemma {:induction false} EncodeIsJoinOfCodes(pairs: seq<Pair>, s: string)
    requires Encodable(pairs, s)
    ensures Encode(pairs, s) == Encoded(Join(Codes(pairs, s)))
  {
    if s != [] {
      var init := s[..|s| - 1];
      assert forall i :: 0 <= i < |init| ==> init[i] == s[i];
      assert Encodable(pairs, init);
      EncodeIsJoinOfCodes(pairs, init);
      var ks := Codes(pairs, s);
      assert ks[..|s| - 1] == Codes(pairs, init);
      assert Join(ks) == Join(Codes(pairs, init)) + ks[|s| - 1];
    }
  }

  /** A failed `Encode` names the leftmost character that no pair matches. */
  lemma {:induction false} EncodeFailsAtLeftmost(pairs: seq<Pair>, s: string)
    requires Encode(pairs, s).Unencodable?
    ensures exists i :: FirstUnencodableAt(pairs, s, i) && Encode(pairs, s).ch == s[i]
  {
    var init := s[..|s| - 1];
    assert forall i :: 0 <= i < |init| ==> init[i] == s[i];
    if Encode(pairs, init).Unencodable? {
      EncodeFailsAtLeftmost(pairs, init);
      var i :| FirstUnencodableAt(pairs, init, i) && Encode(pairs, init).ch == init[i];
      assert FirstUnencodableAt(pairs, s, i);
    } else {
      EncodeSucceedsIff(pairs, init);
      assert FirstUnencodableAt(pairs, s, |s| - 1);
    }
  }

  /**
   * `Encode` against its reference definition: it fails exactly when some
   * character fails, and then names the leftmost one; otherwise its result
   * is the join, in input order, of the codes of the characters.
   */
  lemma EncodeSpec(pairs: seq<Pair>, s: string)
    ensures Encode(pairs, s).Encoded? <==> Encodable(pairs, s)
    ensures Encode(pairs, s).Encoded? ==> Encode(pairs, s).code == Join(Codes(pairs, s))
    ensures Encode(pairs, s).Unencodable? ==>
      exists i :: FirstUnencodableAt(pairs, s, i) && Encode(pairs, s).ch == s[i]
  {
    EncodeSucceedsIff(pairs, s);
    if Encode(pairs, s).Encoded? {
      EncodeIsJoinOfCodes(pairs, s);
    } else {
      EncodeFailsAtLeftmost(pairs, s);
    }
  }

  /** When every key is one character long, a successful encoding keeps the length. */
  lemma {:induction false} EncodeKeepsLength(pairs: seq<Pair>, s: string)
    requires forall i :: 0 <= i < |pairs| ==> |pairs[i].key| == 1
    ensures Encode(pairs, s).Encoded? ==> |Encode(pairs, s).code| == |s|
  {
    if s != [] {
      EncodeKeepsLength(pairs, s[..|s| - 1]);
      LookupIsFirstMatch(pairs, s[|s| - 1]);
    }
  }

  /** Once a prefix of `s` fails, the whole of `s` fails the same way: no partial result. */
  lemma {:induction false} EncodeFailurePersists(pairs: seq<Pair>, s: string, n: nat)
    requires n <= |s| && Encode(pairs, s[..n]).Unencodable?
    ensures Encode(pairs, s) == Encode(pairs, s[..n])
    decreases |s| - n
  {
    if n < |s| {
      assert s[..n + 1][..n] == s[..n];
      EncodeFailurePersists(pairs, s, n + 1);
    } else {
      assert s[..n] == s;
    }
  }

  /**
   * `encode_str`: encodes each character left to right, collecting the codes
   * in a list that is joined at the end; re-raises on the first failure.
   */
  method EncodeStr(v: Validator, s: string) returns (r: Encoding)
    ensures r == Encode(v.config.pairs, s)
    ensures s == "" ==> r == Encoded("")
  {
    ghost var pairs := v.config.pairs;
    var chars: seq<string> := [];
    for i := 0 to |s|
      invariant Encode(pairs, s[..i]) == Encoded(Join(chars))
    {
      var x := EncodeChar(v, s[i]);
      assert s[..i + 1][..i] == s[..i];
      if x.Unencodable? {
        EncodeFailurePersists(pairs, s, i + 1);
        return Unencodable(s[i]);
      }
      chars := chars + [x.code];
    }
    assert s[..|s|] == s;
    return Encoded(Join(chars));
  }

  /** `is_valid_encoding`: exact membership in the list of valid formats. */
  function IsValidEncoding(v: Validator, e: string): (r: bool)
    ensures r <==> exists i :: 0 <= i < |v.config.formats| && v.config.formats[i] == e
  {
    e in v.config.formats
  }

  /**
   * The strings a config accepts: present, every character encodable, and
   * the codes joined in order equal to one of the valid formats.
   */
  ghost predicate Accepts(c: Config, x: Option<string>) {
    && x.Some?
    && Encodable(c.pairs, x.value)
    && Join(Codes(c.pairs, x.value)) in c.formats
  }

  /** A present string is accepted exactly when it encodes and its encoding is a valid format. */
  lemma AcceptsIffEncodesToFormat(c: Config, s: string)
    ensures Accepts(c, Some(s)) <==> Encode(c.pairs, s).Encoded? && Encode(c.pairs, s).code in c.formats
  {
    EncodeSpec(c.pairs, s);
  }

  /**
   * `is_valid_str`: never fails; an absent input (the `TypeError`) and an
   * encoding failure (the `ValueError`) both give false.
   */
  method IsValidStr(v: Validator, x: Option<string>) returns (r: bool)
    ensures x.None? ==> !r
    ensures x.Some? && Encode(v.config.pairs, x.value).Unencodable? ==> !r
    ensures r <==> Accepts(v.config, x)
  {
    match x {
      case None =>
        return false;
      case Some(s) =>
        var e := EncodeStr(v, s);
        EncodeSpec(v.config.pairs, s);
        match e {
          case Unencodable(_) =>
            return false;
          case Encoded(code) =>
            return IsValidEncoding(v, code);
        }
    }
  }

  /** `__eq__`: equal exactly when the other object is a validator with an equal config. */
  function ValidatorEquals(self: Validator, other: ValidatorOperand): (r: bool)
    ensures r <==> other == AValidator(self)
  {
    match other
    case NotAValidator => false
    case AValidator(o) => Equals(self.config, AConfig(o.config))
  }
  /**
   * The search over `pre + post` is decided by `pre` when some pair of `pre`
   * matches: a later matching pair never wins over an earlier one.
   */
  lemma {:induction false} LookupConcat(pre: seq<Pair>, post: seq<Pair>, c: char)
    ensures Lookup(pre + post, c) == if Lookup(pre, c).Encoded? then Lookup(pre, c) else Lookup(post, c)
  {
    if pre != [] {
      assert (pre + post)[1..] == pre[1..] + post;
      LookupConcat(pre[1..], post, c);
    } else {
      assert pre + post == post;
    }
  }

  /** Exchanging two neighbouring pairs that do not both match `c` leaves the lookup of `c` unchanged. */
  lemma SwapDisjointAt(pre: seq<Pair>, p: Pair, q: Pair, post: seq<Pair>, c: char)
    requires !(Matches(p.target, c) && Matches(q.target, c))
    ensures Lookup(pre + [p, q] + post, c) == Lookup(pre + [q, p] + post, c)
  {
    assert pre + [p, q] + post == pre + ([p, q] + post);
    assert pre + [q, p] + post == pre + ([q, p] + post);
    LookupConcat(pre, [p, q] + post, c);
    LookupConcat(pre, [q, p] + post, c);
    assert ([p, q] + post)[1..] == [q] + post;
    assert ([q, p] + post)[1..] == [p] + post;
    assert ([q] + post)[1..] == post;
    assert ([p] + post)[1..] == post;
  }

  /**
   * Exchanging two neighbouring pairs whose targets share no character
   * leaves every lookup unchanged, yet the two configs compare unequal:
   * equality is list equality, not equality of behaviour.
   */
  lemma ReorderedPairsUnequal(pre: seq<Pair>, p: Pair, q: Pair, post: seq<Pair>, formats: seq<string>)
    requires p != q
    requires forall c :: Matches(p.target, c) ==> !Matches(q.target, c)
    ensures forall c :: Lookup(pre + [p, q] + post, c) == Lookup(pre + [q, p] + post, c)
    ensures !Equals(Config(pre + [p, q] + post, formats), AConfig(Config(pre + [q, p] + post, formats)))
  {
    forall c
      ensures Lookup(pre + [p, q] + post, c) == Lookup(pre + [q, p] + post, c)
    {
      SwapDisjointAt(pre, p, q, post, c);
    }
    assert (pre + [p, q] + post)[|pre|] != (pre + [q, p] + post)[|pre|];
  }

  /** `xs` with the elements at `i` and `j` exchanged. */
  function Swap<T>(xs: seq<T>, i: nat, j: nat): (r: seq<T>)
    requires i < |xs| && j < |xs|
    ensures |r| == |xs| && r[i] == xs[j] && r[j] == xs[i]
    ensures forall k :: 0 <= k < |xs| && k != i && k != j ==> r[k] == xs[k]
    ensures multiset(r) == multiset(xs)
  {
    xs[i := xs[j]][j := xs[i]]
  }

  /**
   * Exchanging two different valid formats leaves every membership answer
   * unchanged, yet the two configs compare unequal.
   */
  lemma ReorderedFormatsUnequal(v: Validator, i: nat, j: nat)
    requires i < |v.config.formats| && j < |v.config.formats|
    requires v.config.formats[i] != v.config.formats[j]
    ensures forall e :: IsValidEncoding(v, e) == IsValidEncoding(Validator(Config(v.config.pairs, Swap(v.config.formats, i, j))), e)
    ensures !Equals(v.config, AConfig(Config(v.config.pairs, Swap(v.config.formats, i, j))))
  {
  }

  /** The empty string encodes to itself and is valid exactly when it is listed. */
  lemma EmptyStringValidIffListed(v: Validator)
    ensures Encode(v.config.pairs, "") == Encoded("")
    ensures Accepts(v.config, Some("")) <==> "" in v.config.formats
  {
  }

  /** A config with no pairs and no formats accepts nothing, not even the empty string. */
  lemma EmptyConfigAcceptsNothing(x: Option<string>)
    ensures !Accepts(NewConfig([], []), x)
  {
  }

  /** Equal validators give the same answer on every input. */
  lemma EqualValidatorsAgree(v: Validator, w: Validator, x: Option<string>)
    requires ValidatorEquals(v, AValidator(w))
    ensures Accepts(v.config, x) == Accepts(w.config, x)
  {
  }
}
