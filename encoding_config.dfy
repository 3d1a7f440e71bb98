/**
 * The immutable configuration of an encoding validator: an ordered list of
 * single-entry `{key: target}` pairs and a list of accepted encoded strings.
 * Both are stored verbatim at construction and never changed, so a config is
 * a value, and Python's structural `==` becomes datatype equality.
 */
module EncodingConfig {

  /** What a pair's value is compared with: one character, or a list of characters. */
  datatype Target = Lit(ch: char) | OneOf(chars: seq<char>)

  /** One `{key: target}` entry; the key is the code emitted for a matching character. */
  datatype Pair = Pair(key: string, target: Target)

  datatype Config = Config(pairs: seq<Pair>, formats: seq<string>)
  {
    /** The `encoding_pairs` property. */
    function EncodingPairs(): seq<Pair> { pairs }

    /** The `valid_formats` property. */
    function ValidFormats(): seq<string> { formats }
  }

  /** The right-hand side of `==`: another config, or an object of any other class. */
  datatype Operand = AConfig(config: Config) | NotAConfig

  /**
   * The constructor: no validation at all (empty lists, duplicate keys and
   * overlapping targets are accepted), and the accessors give back exactly
   * what was passed in.
   */
  function NewConfig(pairs: seq<Pair>, formats: seq<string>): (c: Config)
    ensures c.EncodingPairs() == pairs && c.ValidFormats() == formats
  {
    Config(pairs, formats)
  }

  /** `__eq__`: equal exactly when the other object is a config with the same two lists. */
  function Equals(self: Config, other: Operand): (r: bool)
    ensures r <==> other == AConfig(self)
    ensures r ==> other.config.EncodingPairs() == self.EncodingPairs()
    ensures r ==> other.config.ValidFormats() == self.ValidFormats()
  {
    match other
    case NotAConfig => false
    case AConfig(o) => (self.pairs, self.formats) == (o.pairs, o.formats)
  }

  /** Two constructions compare equal if and only if they were given the same lists. */
  lemma NewConfigEqualsIff(p1: seq<Pair>, f1: seq<string>, p2: seq<Pair>, f2: seq<string>)
    ensures Equals(NewConfig(p1, f1), AConfig(NewConfig(p2, f2))) <==> p1 == p2 && f1 == f2
  {
  }

  /** `__eq__` is an equivalence relation on configs. */
  lemma EqualsIsEquivalence(a: Config, b: Config, c: Config)
    ensures Equals(a, AConfig(a))
    ensures Equals(a, AConfig(b)) ==> Equals(b, AConfig(a))
    ensures Equals(a, AConfig(b)) && Equals(b, AConfig(c)) ==> Equals(a, AConfig(c))
  {
  }
}
