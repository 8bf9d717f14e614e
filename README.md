# XmlConstruct in Dafny

A model of `XmlConstruct` (sausin/xml-construct), a PHP class that extends
`XMLWriter` and turns a nested PHP array into an XML document. A key of the
array names an element. A composite key such as `KEY1|ATTR1|VAL1|ATTR2|VAL2`
also carries attributes. An array value becomes nested elements. A numerically
indexed array value is transparent. A scalar value becomes element text.

The project has four modules:

- `Wrappers` (`wrappers.dfy`): `Option`, `Result` and `Outcome`.
- `KeyGrammar` (`key_grammar.dfy`): the composite-key grammar of `writeKey`.
  It holds `mb_strpos` (`IndexOf`), `explode`, `implode`, `array_chunk`
  (`Chunk`), `ParseKey` and the lemmas about them. These are pure functions.
- `Writer` (`writer.dfy`): the inherited `XMLWriter`, kept abstract. The class
  `XmlWriter` holds the open-element stack and the list of write calls it
  received (`Open`, `Attr`, `Text`, `Close`). `endElement` requires an open
  element. `writeAttribute` requires that the current element has no content
  yet. `Replay` computes the stack that a list of events leaves behind. The
  class invariant `Valid` ties the stack to its event list.
- `Construct` (`xml_construct.dfy`): the input tree, the specification
  functions, the class `XmlConstruct` and the lemmas.
  - The PHP array is a tagged tree: `Node = Leaf(Option<string>) | Arr(seq<Entry>)`.
    A key is `Key = Index(int) | Name(string)`.
  - `KeyTrace`, `LeafTrace`, `EntryTrace` and `EntriesTrace` say which write
    calls `writeKey`, `setElement`, one loop iteration and `fromArray` make.
    They also say how each call ends: normally, or with one of the two
    exceptions. The class methods are proved to make exactly those calls.
  - `Document` is the result of constructing, calling `fromArray` and calling
    `getDocument`. The method `Convert` performs those three steps.

An exception is modelled as a `Fail` outcome. The events written before the
exception stay in the writer's buffer, for example the start tag that
`writeKey` opens before its parity check throws.

## Model

| member | source | states |
|---|---|---|
| `KeyGrammar.IndexOf` | src/XmlConstruct.php:81 | mb_strpos: a position it returns is an occurrence of the separator |
| `KeyGrammar.IndexOfFirst` | src/XmlConstruct.php:81 | the returned position is the first occurrence; None means the separator does not occur |
| `KeyGrammar.Explode` | src/XmlConstruct.php:82 | explode yields at least one piece |
| `KeyGrammar.Chunk` | src/XmlConstruct.php:92 | array_chunk($pieces, 2) on an even token list: pair k is (token 2k, token 2k+1), and there are half as many pairs as tokens |
| `KeyGrammar.Splits` | src/XmlConstruct.php:81 | the truthiness test on mb_strpos: a key that splits has a non-empty separator shorter than itself that occurs in it (the converse is `KeyGrammar.SplitsIff`) |
| `KeyGrammar.SplitKey` | src/XmlConstruct.php:81-98 | the element name is a prefix of the key; tokens follow it exactly when the key splits, and then the name is non-empty (pieces and round trip in `KeyGrammar.SplitPairs` and `KeyGrammar.SplitRoundTrip`) |
| `KeyGrammar.ParseKey` | src/XmlConstruct.php:87-93 | only a key that splits can fail; a parsed key keeps the split name and has one attribute per two tokens (both directions of failure in `KeyGrammar.MalformedIff`, whole keys in `KeyGrammar.WholeKeyIffNotSplit`, pairing in `KeyGrammar.SplitPairs`, round trips in `KeyGrammar.ParseComposeRoundTrip` and `KeyGrammar.ComposeParseRoundTrip`) |
| `KeyGrammar.SplitsIff` | src/XmlConstruct.php:81 | the key is split exactly when the separator is non-empty, occurs in the key and does not occur at position 0 (position 0 is falsy) |
| `KeyGrammar.WholeKeyIffNotSplit` | src/XmlConstruct.php:95-98 | a key that is not split parses to itself with no attributes; a split key never does |
| `KeyGrammar.SplitPairs` | src/XmlConstruct.php:82-93 | a split key that parses: the name is the first piece, non-empty and free of separators, and attribute k is (piece 2k+1, piece 2k+2), in key order |
| `KeyGrammar.MalformedIff` | src/XmlConstruct.php:87-89 | parsing fails with token t exactly when the key is split into an even number of pieces and t is the last piece |
| `KeyGrammar.OddTokensFail` | src/XmlConstruct.php:85-88 | with a one-character separator, a non-empty name free of the separator, followed by an odd number of separator-free tokens, fails with the last token after naming the element |
| `KeyGrammar.ExplodePiecesSeparatorFree` | src/XmlConstruct.php:82 | no piece of explode contains the separator |
| `KeyGrammar.ImplodeExplode` | src/XmlConstruct.php:82 | joining the pieces of explode with the separator gives back the string |
| `KeyGrammar.ExplodeImplode` | src/XmlConstruct.php:82 | with a one-character separator, explode undoes implode on separator-free pieces |
| `KeyGrammar.SplitRoundTrip` | src/XmlConstruct.php:82-85 | the element name and all tokens, joined with the separator, give back the key |
| `KeyGrammar.TokensChunk` | src/XmlConstruct.php:92 | laying the pairs back out gives the token list |
| `KeyGrammar.ChunkTokens` | src/XmlConstruct.php:92 | pairing the laid-out tokens gives the pairs back |
| `KeyGrammar.ParseComposeRoundTrip` | src/XmlConstruct.php:79-99 | a key that parses composes back into itself |
| `KeyGrammar.ComposeParseRoundTrip` | src/XmlConstruct.php:79-99 | a name and attributes free of a one-character separator, and a non-empty name when there are attributes, compose into a key that parses back to them |
| `Writer.ReplayAppend` | src/XmlConstruct.php:41-55 | replaying two event lists one after the other is replaying their concatenation |
| `Writer.BalancedWrap` | src/XmlConstruct.php:47-50 | an element opened around balanced content and then closed is balanced |
| `Writer.ReplayCloses` | src/XmlConstruct.php:68 | n end tags pop the top n names of the open-element stack |
| `Writer.XmlWriter.constructor` | src/XmlConstruct.php:24 | openMemory: empty buffer, nothing open |
| `Writer.XmlWriter.StartElement` | src/XmlConstruct.php:85 | pushes the name and records Open(name); the start tag is then open for attributes |
| `Writer.XmlWriter.WriteAttribute` | src/XmlConstruct.php:93 | allowed only while the start tag is open; records Attr(name, value) and keeps the stack |
| `Writer.XmlWriter.Text` | src/XmlConstruct.php:112 | records Text(t) and keeps the stack; the start tag is closed |
| `Writer.XmlWriter.EndElement` | src/XmlConstruct.php:114 | requires an open element; pops it and records Close |
| `Writer.XmlWriter.EndDocument` | src/XmlConstruct.php:68 | closes every element still open, innermost first, leaving the stack empty |
| `Writer.XmlWriter.OutputMemory` | src/XmlConstruct.php:70 | returns the buffer |
| `Construct.Digits` | src/XmlConstruct.php:53 | a non-negative integer key is written in canonical decimal: a non-empty string of decimal digits with no leading zero, beginning with 0 only for 0 (the minus sign of a negative key is added by `Construct.KeyText`) |
| `Construct.DigitsRoundTrip` | src/XmlConstruct.php:53 | the decimal digits of n denote n |
| `Construct.KeyText` | src/XmlConstruct.php:53 | an integer key becomes a non-empty string that starts with a minus sign exactly when the key is negative; what follows the sign is decimal digits with no leading zero that denote the key's magnitude |
| `Construct.AttributeEvents` | src/XmlConstruct.php:92-94 | one Attr event per pair, in order |
| `Construct.KeyTrace` | src/XmlConstruct.php:79-99 | writeKey first opens the element named by the split name; it completes exactly when the key parses, and on failure nothing follows the start tag (attribute order in `Construct.KeyTraceAttributes`) |
| `Construct.KeyTraceAttributes` | src/XmlConstruct.php:85-94 | for a key that parses, writeKey writes the start tag of the split name, then one attribute per two tokens after it, attribute k being (token 2k, token 2k+1), in key order, and nothing else |
| `Construct.LeafTrace` | src/XmlConstruct.php:108-115 | null writes nothing and fails with the TypeError; setElement completes exactly when the value is not null and the key parses, and then writes the start tag, then the text, then the end tag |
| `Construct.EntryTrace` | src/XmlConstruct.php:42-54 | a null value writes nothing and fails; every completed entry except an array under a numeric key starts with the start tag of the key's element and ends with an end tag (transparency in `Construct.IndexTransparent`, balance in `Construct.EntryBalanced`) |
| `Construct.EntriesTrace` | src/XmlConstruct.php:39-58 | fromArray completes exactly when every entry of the array completes (order in `Construct.TraceAppend`, nulls and keys in `Construct.EntriesPassIff`, balance in `Construct.EntriesBalanced`) |
| `Construct.Document` | src/XmlConstruct.php:22-71 | a document is produced exactly when fromArray completes, and it starts with the root's start tag and ends with an end tag (replay in `Construct.DocumentWellFormed`) |
| `Construct.XmlConstruct.constructor` | src/XmlConstruct.php:22-30 | opens the root element as the only open element and stores the separator |
| `Construct.XmlConstruct.AsWritten` | src/XmlConstruct.php:22-30 | the constructor as written: the root is opened, and the separator field keeps its initial null, read as "" |
| `Construct.XmlConstruct.FromArray` | src/XmlConstruct.php:39-58 | writes exactly EntriesTrace(entries) and ends with its outcome; on success the open-element stack is as it was |
| `Construct.XmlConstruct.WriteEntry` | src/XmlConstruct.php:42-54 | one loop iteration writes exactly EntryTrace(entry): numeric array keys recurse without an element, named ones wrap the recursion in the key's element, scalars go to setElement |
| `Construct.XmlConstruct.GetDocument` | src/XmlConstruct.php:65-71 | closes the current element, then every element still open; the stack ends empty and the buffer is returned |
| `Construct.XmlConstruct.WriteKey` | src/XmlConstruct.php:79-99 | writes exactly KeyTrace(key): the element is opened in every case, and its attributes are written only when the token count is even; pushes the element name |
| `Construct.XmlConstruct.WriteAttributes` | src/XmlConstruct.php:92-94 | writes one attribute per pair, in order, into the open start tag |
| `Construct.XmlConstruct.SetElement` | src/XmlConstruct.php:108-115 | null writes nothing and fails with a TypeError; otherwise the key's element, the text and the end tag |
| `Construct.Convert` | src/XmlConstruct.php:22-71 | constructing, fromArray and getDocument yield Document(root, sep, entries); a successful document has balanced nesting and every attribute inside a start tag |
| `Construct.TraceAppend` | src/XmlConstruct.php:41 | entries are written in iteration order: converting a + b is converting a, then b unless a failed |
| `Construct.IndexTransparent` | src/XmlConstruct.php:43-45 | an array under a numeric key is replaced by its children, wherever it stands |
| `Construct.WrapperTransparent` | src/XmlConstruct.php:43-45 | [[...]] converts like [...] |
| `Construct.NullAborts` | src/XmlConstruct.php:108 | a null value after a passing prefix ends the conversion with a TypeError; only the prefix was written |
| `Construct.EntriesPassIff` | src/XmlConstruct.php:39-58 | fromArray completes exactly when no value is null and every key it writes parses |
| `Construct.EntryPassIff` | src/XmlConstruct.php:42-54 | one entry completes exactly when it has no null value and every key it writes parses |
| `Construct.AttributesBalanced` | src/XmlConstruct.php:92-94 | attribute events leave the open-element stack unchanged |
| `Construct.EntriesBalanced` | src/XmlConstruct.php:39-58 | what fromArray writes when it completes closes every element it opens, in LIFO order |
| `Construct.EntryBalanced` | src/XmlConstruct.php:47-53 | each completed entry closes what it opens |
| `Construct.DocumentWellFormed` | src/XmlConstruct.php:65-71 | a produced document starts with the root's start tag, ends with an end tag and replays from nothing open to nothing open |
| `Construct.FlatEvents` | tests/XmlConstructTest.php:17-31 | three events per entry of a flat array |
| `Construct.FlatMapping` | src/XmlConstruct.php:52-53 | a flat array of non-null scalars under keys that do not split becomes `<key>value</key>` per entry, in order |
| `Construct.PlainKey` | src/XmlConstruct.php:95-98 | a key without the separator character opens one element named by the whole key |
| `Construct.AttributeKeyExample` | tests/XmlConstructTest.php:51-65 | the key KEY1, ATTR1, VAL1, ATTR2, VAL2 joined by the separator opens KEY1 with ATTR1="VAL1" and ATTR2="VAL2", for the vertical bar and for the colon |
| `Construct.OddKeyExample` | tests/XmlConstructTest.php:85-94 | `KEY1:ATTR1:VAL1:ATTR2` opens KEY1 and then fails at ATTR2 |
| `Construct.FlatExample` | tests/XmlConstructTest.php:17-31 | the flat example produces ROOT holding KEY1 and KEY2 with their texts |
| `Construct.NumericWrapperExample` | tests/XmlConstructTest.php:34-48 | the same array under a numeric wrapper produces the same document |
| `Construct.AttributesExample` | tests/XmlConstructTest.php:51-82 | the attribute example produces KEY1 with two attributes and its text, then KEY2, for the vertical bar and for the colon |
| `Construct.OddExample` | tests/XmlConstructTest.php:85-94 | the malformed key makes the conversion fail with the invalid-attribute-pair error at ATTR2 |
| `Construct.NullExample` | tests/XmlConstructTest.php:97-106 | a null value makes the conversion fail with the TypeError |
| `Construct.UnstoredSeparator` | src/XmlConstruct.php:81 | with the separator the constructor as written leaves behind, every key parses to itself and opens one element |
| `Construct.UnstoredSeparatorExample` | tests/XmlConstructTest.php:51-94 | as written, the attribute example opens an element named by the whole key, and the malformed key does not fail |

## Left out

- XMLWriter internals are not modelled: `setIndent`, `setIndentString`, the
  `startDocument` declaration, indentation, `PHP_EOL`, escaping, and the
  rendering of events to text. The writer is an event log plus a stack, so
  the model says nothing about the exact bytes the tests compare.
- Inheritance from XMLWriter is modelled as composition. `XmlConstruct`
  holds its writer in the field `writer`, and the class's own calls go
  through it. Public XMLWriter methods that a caller could invoke directly on
  the object are not modelled.
- Name validity (an empty element name, or `"0"` from an integer key) is left
  to the writer library. XMLWriter rejects such names by returning false
  (PHP 7) or by throwing (PHP 8); the class does not check the result, and the
  model writes them like any other name.
- `fromJson` and `fromJsonSerializable`: the tests call them, but
  src/XmlConstruct.php does not define them, and JSON parsing is external.
- PHP type juggling: `is_array`, `is_numeric` on string keys such as `"1.5"`,
  `"1e3"` or `" 12"` (PHP keeps these as strings, while `"12"` becomes the
  integer 12; `is_numeric` makes their array values transparent, but the model
  treats them as element names), integer-to-string conversion of keys and scalar-to-string conversion of
  values are replaced by the tagged `Key` and `Node` types. A leaf holds its
  text already converted. A negative integer key is written with a leading `-`.
- `KeyGrammar.ExplodeImplode`: proved only for one-character separators. With
  a longer separator, a separator can straddle two joined pieces, so the
  round trip does not hold for every separator-free piece list.
- `KeyGrammar.ComposeParseRoundTrip`: also proved only for one-character
  separators, for the same reason.
- The separator is not required to be non-empty. With the empty separator,
  `mb_strpos` gives position 0, which is falsy, so keys are never split and
  `explode` is never reached. The model follows the code here.
- Writes after `getDocument` and other orders of calls the class allows are not
  modelled; `Convert` states the construct, `fromArray`, `getDocument`
  sequence.
- The writer state after an exception is kept as written but not used further.
  PHP code that catches the exception and continues is not modelled.
- The `fromArray` method returns an `Outcome` instead of `$this`, because the
  only thing a caller can observe beyond the writer is whether it threw.

## Findings

| source | as written | input that shows it | evidently intended | confidence | as-written member | corrected member |
|---|---|---|---|---|---|---|
| src/XmlConstruct.php:22-30 | the constructor never assigns `$separator` to `$this->separator`, so `mb_strpos($key, $this->separator)` at :81 searches for null, read as the empty string, which is never found at a truthy position; no key is ever split | `new XmlConstruct('ROOT')` then `fromArray` on the array whose first key is KEY1, ATTR1, VAL1, ATTR2, VAL2 joined by the vertical bar passes that whole key to `startElement`, so no attributes are written (whether XMLWriter accepts a name containing the vertical bar is the name check left out above), and `KEY1:ATTR1:VAL1:ATTR2` under `':'` does not throw | the constructor stores the separator, so the key opens `KEY1` with `ATTR1="VAL1" ATTR2="VAL2"`, as tests/XmlConstructTest.php:51-94 expect | high, not executed | `Construct.UnstoredSeparatorExample` | `Construct.AttributesExample` |
