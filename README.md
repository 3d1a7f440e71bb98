# Encoding validator, modelled in Dafny

This project models a small Python library. The library encodes characters
into class codes using an ordered list of `{key: target}` pairs. A target is
a single character or a list of characters. The library then accepts a
string when its encoded form is exactly one of a list of valid formats.

- `encoding_config.dfy` (module `EncodingConfig`): the immutable config. It
  is a `Config` datatype holding the ordered pairs and the valid formats.
  The module also has the constructor, the two accessors, and `__eq__`.
  An `Operand` datatype stands for the right-hand side of `==`, so a
  comparison with an object of another class can be written down.
- `encoding_validator.dfy` (module `EncodingValidator`): the validator. It
  is a `Validator` datatype holding one config.
  - `encode_char` is a method with a search loop. It is proved equal to
    `Lookup`, a recursive first-match function.
  - `encode_str` is a method whose loop appends each code to a list. It is
    proved equal to `Encode`.
  - `is_valid_encoding` is a function.
  - `is_valid_str` is a method. It is proved equivalent to `Accepts`, a
    declarative statement of which strings a config accepts.
  - `__eq__` is a function.
- `encoding_validator.dfy` also holds the lemmas that relate these members:
  - `Encode` against its reference definition;
  - first-match priority;
  - length preservation;
  - reordering a config keeps its behaviour but not its equality.
- `reference_examples.dfy` (module `ReferenceExamples`): the test suite's
  reference config, the verdicts the suite expects, and a config with
  overlapping targets.
- `wrappers.dfy`: `Option`, which models the optional (`None`) argument of
  `is_valid_str`.

An encoding failure is the value `Unencodable(ch)`. It stands for the
`ValueError` the code raises, and `ch` is the character that no pair
matches. `is_valid_str` receives an `Option<string>`. `None` stands for
Python's `None`, which makes the loop raise `TypeError`; that error is
caught and gives false.

Where the code and its documentation disagree, the model follows the code:

- The docstring of `encode_char` says it returns `None` for an
  unencodable character, but the code raises an error. The model fails.
  It never returns a "no encoding" value.
- The test suite's class codes are each one character, but the code
  accepts keys of any length. Length is therefore kept only when every key
  has length 1 (`EncodeKeepsLength`).
- The valid formats are a list, so their order matters for `==`.
  `__hash__` hashes a tuple of lists, which raises `TypeError`. Hashing is
  left out.

## Model

| member | source | states |
|---|---|---|
| `EncodingConfig.NewConfig` | encoding_validator/encoding_config.py:11-42 | construction takes any two lists without validation; the accessors return exactly the lists passed in |
| `EncodingConfig.Equals` | encoding_validator/encoding_config.py:52-58 | `__eq__` is true exactly when the other object is a config with equal pairs and equal formats; an object of another class is never equal |
| `EncodingConfig.NewConfigEqualsIff` | encoding_validator/encoding_config.py:52-57 | two constructed configs are equal if and only if both their pair lists and their format lists are equal |
| `EncodingConfig.EqualsIsEquivalence` | encoding_validator/encoding_config.py:52-58 | config equality is reflexive, symmetric and transitive |
| `EncodingValidator.Lookup` | encoding_validator/encoding_validator.py:45-52 | a failed character lookup names the character that failed |
| `EncodingValidator.LookupIsFirstMatch` | encoding_validator/encoding_validator.py:45-52 | the lookup returns the key of the first pair, in list order, whose value equals the character or is a list containing it; it fails exactly when no pair matches |
| `EncodingValidator.LookupConcat` | encoding_validator/encoding_validator.py:45-51 | over `pre + post`, a match in `pre` decides the result; a later matching pair never wins over an earlier one |
| `EncodingValidator.SwapDisjointAt` | encoding_validator/encoding_validator.py:45-51 | swapping two neighbouring pairs that do not both match a character leaves that character's lookup unchanged |
| `EncodingValidator.EncodeChar` | encoding_validator/encoding_validator.py:33-52 | the search loop with early return computes exactly the first-match lookup, including the failure when nothing matches |
| `EncodingValidator.Join` | encoding_validator/encoding_validator.py:75 | joining one-character parts gives a string as long as the list of parts |
| `EncodingValidator.EncodeSucceedsIff` | encoding_validator/encoding_validator.py:66-74 | encoding a string succeeds if and only if every character can be encoded |
| `EncodingValidator.EncodeIsJoinOfCodes` | encoding_validator/encoding_validator.py:66-75 | a successful encoding is the concatenation, in input order, of each character's code |
| `EncodingValidator.EncodeFailsAtLeftmost` | encoding_validator/encoding_validator.py:67-74 | a failed encoding reports the leftmost character that cannot be encoded |
| `EncodingValidator.EncodeSpec` | encoding_validator/encoding_validator.py:54-75 | the string encoding against its reference definition: all-or-nothing, codes joined in order, leftmost failure reported |
| `EncodingValidator.EncodeKeepsLength` | encoding_validator/encoding_validator.py:66-75 | when every key is one character long, a successful encoding is as long as the input |
| `EncodingValidator.EncodeFailurePersists` | encoding_validator/encoding_validator.py:67-74 | once a prefix fails to encode, the whole string fails with the same error; no partial result is returned |
| `EncodingValidator.EncodeStr` | encoding_validator/encoding_validator.py:54-75 | the loop that collects the codes in a list and joins them computes the all-or-nothing encoding; the empty string encodes to the empty string |
| `EncodingValidator.IsValidEncoding` | encoding_validator/encoding_validator.py:77-86 | an encoded string is valid exactly when it equals some element of the valid formats |
| `EncodingValidator.AcceptsIffEncodesToFormat` | encoding_validator/encoding_validator.py:100-101 | a present string is accepted exactly when it encodes and its encoding is a valid format |
| `EncodingValidator.IsValidStr` | encoding_validator/encoding_validator.py:88-103 | never fails; false for an absent input or a failed encoding; otherwise true exactly when the config accepts the string |
| `EncodingValidator.ValidatorEquals` | encoding_validator/encoding_validator.py:112-115 | validators are equal exactly when the other object is a validator with an equal config |
| `EncodingValidator.EqualValidatorsAgree` | encoding_validator/encoding_validator.py:112-115 | equal validators give the same verdict on every input |
| `EncodingValidator.ReorderedPairsUnequal` | encoding_validator/encoding_config.py:52-57 | swapping two different neighbouring pairs with disjoint targets keeps every lookup but gives an unequal config |
| `EncodingValidator.ReorderedFormatsUnequal` | encoding_validator/encoding_config.py:52-57 | swapping two different valid formats keeps every membership answer but gives an unequal config |
| `EncodingValidator.EmptyStringValidIffListed` | encoding_validator/encoding_validator.py:66-86 | the empty string encodes to itself and is accepted exactly when it is one of the formats |
| `EncodingValidator.EmptyConfigAcceptsNothing` | encoding_validator/encoding_config.py:11-22 | a config built from two empty lists is accepted and then rejects every input |
| `ReferenceExamples.ReferenceClassOf` | tests/test_encoding_validator.py:11-16 | under the reference config a space encodes to a space, a digit to `N`, an upper-case letter to `A`, and anything else fails |
| `ReferenceExamples.ReferenceAccepted` | tests/test_encoding_validator.py:28-45 | the reference config accepts `F1 `, `1F `, ` F1`, `123` and `ABC` |
| `ReferenceExamples.ReferenceRejectedFormats` | tests/test_encoding_validator.py:28-45 | the reference config rejects `F11`, `11F`, `  F` and three spaces, which all encode |
| `ReferenceExamples.ReferenceRejectedInputs` | tests/test_encoding_validator.py:28-45 | the reference config rejects `!23`, the non-ASCII input, `None` and the empty string; `!23` fails to encode at `!` |
| `ReferenceExamples.OverlapFirstPairWins` | encoding_validator/encoding_validator.py:45-51 | with overlapping targets, the character encodes by whichever matching pair comes first |

## Left out

- `__hash__` of both classes: it hashes a tuple holding Python lists, which raises `TypeError`. "Equal configs hash equally" does not hold of the code, so it is not modelled.
- `__repr__` of both classes: string formatting only.
- Error message text: a failure carries only the character that could not be encoded. The f-string messages are not modelled.
- Dynamic-typing accidents are not modelled:
  - a pair dictionary with more or fewer than one entry;
  - a pair value that is a string of another length, or a collection other than a list;
  - a non-string iterable passed to `is_valid_str`.
  A pair is always one key with a `Lit` or `OneOf` target, and the input of `is_valid_str` is `Option<string>`.
- `Final` fields: configs and validators are datatypes. `Final` in the source only forbids rebinding the attributes, and only to a type checker; the lists themselves stay mutable.
- The `encoding_config` property of the validator is the `config` field of the `Validator` datatype.
- Sharing and aliasing: the constructor stores the caller's list objects and the accessors return those same objects. The model treats a config as a value, so a caller mutating the lists it passed to the constructor, or the lists the accessors return, is not captured. The library itself never does so.
- Packaging (`setup.py`) and the broken import paths of the module and its test are not part of this model.
