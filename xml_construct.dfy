/** XmlConstruct (src/XmlConstruct.php): turns a nested PHP array into XML by driving
    an XML writer. The PHP array is modelled as a tagged tree: an entry's key is an
    integer index or a name, its value a leaf (a string, or null) or a nested array.
    What the serializer writes is specified by the Trace functions below; the class
    methods are proved to write exactly that. */
module Construct {
  import opened Wrappers
  import opened KeyGrammar
  import opened Writer

  /** An array key: integer keys stand for PHP's numeric keys. */
  datatype Key = Index(index: int) | Name(name: string)

  /** One `$key => $val` entry of an array. */
  datatype Entry = Entry(key: Key, value: Node)

  /** An array value: a scalar already coerced to text or null, or a nested array. */
  datatype Node = Leaf(text: Option<string>) | Arr(entries: seq<Entry>)

  /** BadFunctionCallException('Invalid attribute pair at ' . token), and the
      TypeError raised when null is passed for setElement's string parameter. */
  datatype Error = InvalidAttributePair(token: string) | NullText

  /** The writes the serializer makes and how it ends. On failure the events are
      those written before the exception. */
  datatype Trace = Trace(events: seq<Event>, outcome: Outcome<Error>)

  /** Run `a`, then `b` unless `a` failed. */
  function Then(a: Trace, b: Trace): Trace
  {
    if a.outcome.Fail? then a else Trace(a.events + b.events, b.outcome)
  }

  const Done := Trace([], Pass)

  // ---------------------------------------------------------------------------
  // Integer keys as element names

  function DigitChar(d: nat): char
    requires d < 10
  {
    "0123456789"[d]
  }

  /** The decimal digits of `n`, most significant first. */
  function Digits(n: nat): (s: string)
    ensures |s| >= 1 && forall c :: c in s ==> '0' <= c <= '9'
    ensures s[0] == '0' <==> n == 0
    ensures |s| > 1 ==> s[0] != '0'
  {
    if n < 10 then [DigitChar(n)] else Digits(n / 10) + [DigitChar(n % 10)]
  }

  /** The number a string of decimal digits denotes. */
  function DigitsValue(s: string): int
  {
    if s == [] then 0 else 10 * DigitsValue(s[..|s| - 1]) + (s[|s| - 1] as int - '0' as int)
  }

  lemma {:induction false} DigitsRoundTrip(n: nat)
    ensures DigitsValue(Digits(n)) == n
  {
    if n >= 10 {
      DigitsRoundTrip(n / 10);
      var s := Digits(n / 10) + [DigitChar(n % 10)];
      assert s[..|s| - 1] == Digits(n / 10);
    }
  }

  /** The element name of a key: an integer key is converted to its decimal string,
      as PHP does when it passes it for a string parameter. */
  function KeyText(k: Key): (r: string)
    ensures k.Index? ==> |r| >= 1 && (r[0] == '-' <==> k.index < 0)
    ensures k.Index? && k.index >= 0 ==> DigitsValue(r) == k.index
    ensures k.Index? && k.index < 0 ==> DigitsValue(r[1..]) == -k.index
    ensures k.Index? ==>
      var u := if k.index < 0 then r[1..] else r;
      |u| >= 1 && (forall c :: c in u ==> '0' <= c <= '9') && (|u| > 1 ==> u[0] != '0')
  {
    match k
    case Name(name) => name
    case Index(i) =>
      if i < 0 then
        DigitsRoundTrip(-i);
        SignedDigits(-i);
        "-" + Digits(-i)
      else
        DigitsRoundTrip(i);
        SignedDigits(i);
        Digits(i)
  }

  /** A minus sign before the digits of `n` is the only sign: the digits carry none. */
  lemma SignedDigits(n: nat)
    ensures Digits(n)[0] != '-'
    ensures ("-" + Digits(n))[0] == '-' && ("-" + Digits(n))[1..] == Digits(n)
  {
    assert Digits(n)[0] in Digits(n);
  }

  // ---------------------------------------------------------------------------
  // What the serializer writes

  function AttributeEvents(attrs: seq<Attribute>): (evs: seq<Event>)
    ensures |evs| == |attrs|
    ensures forall k :: 0 <= k < |attrs| ==> evs[k] == Attr(attrs[k].name, attrs[k].value)
  {
    if attrs == [] then [] else AttributeEvents(attrs[..|attrs| - 1]) + [Attr(attrs[|attrs| - 1].name, attrs[|attrs| - 1].value)]
  }

  /** writeKey (src/XmlConstruct.php:79-99): open the element named by the key, then
      write its attributes; an odd token count fails after the element is opened. */
  function KeyTrace(key: string, sep: string): (t: Trace)
    ensures t.events != [] && t.events[0] == Open(SplitKey(key, sep).name)
    ensures t.outcome.Pass? <==> ParseKey(key, sep).Success?
    ensures t.outcome.Fail? ==> |t.events| == 1
  {
    match ParseKey(key, sep)
    case Success(pk) => Trace([Open(pk.name)] + AttributeEvents(pk.attributes), Pass)
    case Failure(token) => Trace([Open(SplitKey(key, sep).name)], Fail(InvalidAttributePair(token)))
  }

  /** setElement (src/XmlConstruct.php:108-115): null is refused before anything is
      written; otherwise the key's element receives the text and is closed. */
  function LeafTrace(name: string, text: Option<string>, sep: string): (t: Trace)
    ensures text.None? ==> t.events == [] && t.outcome == Fail(NullText)
    ensures t.outcome.Pass? <==> text.Some? && ParseKey(name, sep).Success?
    ensures t.outcome.Pass? ==>
      |t.events| >= 3 && t.events[0] == Open(SplitKey(name, sep).name)
      && t.events[|t.events| - 2] == Event.Text(text.value) && t.events[|t.events| - 1] == Close
  {
    match text
    case None => Trace([], Fail(NullText))
    case Some(t) => Then(KeyTrace(name, sep), Trace([Event.Text(t), Close], Pass))
  }

  /** One iteration of fromArray's loop (src/XmlConstruct.php:42-54). */
  function EntryTrace(e: Entry, sep: string): (t: Trace)
    ensures e.value == Leaf(None) ==> t.events == [] && t.outcome == Fail(NullText)
    ensures !(e.key.Index? && e.value.Arr?) && t.outcome.Pass? ==>
      |t.events| >= 2 && t.events[0] == Open(SplitKey(KeyText(e.key), sep).name) && t.events[|t.events| - 1] == Close
    decreases e
  {
    match e.value
    case Leaf(text) => LeafTrace(KeyText(e.key), text, sep)
    case Arr(children) =>
      if e.key.Index? then EntriesTrace(children, sep)
      else Then(KeyTrace(e.key.name, sep), Then(EntriesTrace(children, sep), Trace([Close], Pass)))
  }

  /** fromArray (src/XmlConstruct.php:39-58): the entries in order, stopping at the
      first failure. */
  function EntriesTrace(es: seq<Entry>, sep: string): (t: Trace)
    ensures t.outcome.Pass? <==> forall k :: 0 <= k < |es| ==> EntryTrace(es[k], sep).outcome.Pass?
    decreases es
  {
    if es == [] then Done else Then(EntryTrace(es[0], sep), EntriesTrace(es[1..], sep))
  }

  /** The document of `new XmlConstruct(root, sep)`, `fromArray(es)` and
      `getDocument()`: the root element around what fromArray wrote. */
  function Document(root: string, sep: string, es: seq<Entry>): (r: Result<seq<Event>, Error>)
    ensures r.Success? <==> EntriesTrace(es, sep).outcome.Pass?
    ensures r.Success? ==> |r.value| >= 2 && r.value[0] == Open(root) && r.value[|r.value| - 1] == Close
  {
    var t := EntriesTrace(es, sep);
    match t.outcome
    case Fail(e) => Failure(e)
    case Pass => Success([Open(root)] + t.events + [Close])
  }

  // ---------------------------------------------------------------------------
  // The converter object

  class XmlConstruct {
    /** The inherited XMLWriter state. */
    const writer: XmlWriter
    const separator: string

    ghost predicate Valid()
      reads this, writer
    {
      writer.Valid()
    }

    /** __construct (src/XmlConstruct.php:22-30): open the root element. The
        separator is stored here; the source declares the field but never assigns it. */
    constructor (rootElementName: string, separator: string := "|")
      ensures Valid() && fresh(writer)
      ensures this.separator == separator
      ensures writer.stack == [rootElementName]
      ensures writer.events == [Open(rootElementName)]
    {
      this.separator := separator;
      writer := new XmlWriter();
      new;
      writer.StartElement(rootElementName);
    }

    /** __construct as written: the separator argument is dropped and the field keeps
        its initial null, which the string functions read as the empty string. */
    constructor AsWritten(rootElementName: string, separator: string := "|")
      ensures Valid() && fresh(writer)
      ensures this.separator == ""
      ensures writer.stack == [rootElementName]
      ensures writer.events == [Open(rootElementName)]
    {
      this.separator := "";
      writer := new XmlWriter();
      new;
      writer.StartElement(rootElementName);
    }

    /** fromArray (src/XmlConstruct.php:39-58). An exception becomes a Fail outcome. */
    method FromArray(entries: seq<Entry>) returns (outcome: Outcome<Error>)
      requires Valid()
      modifies writer
      ensures Valid()
      ensures writer.events == old(writer.events) + EntriesTrace(entries, separator).events
      ensures outcome == EntriesTrace(entries, separator).outcome
      ensures outcome.Pass? ==> writer.stack == old(writer.stack)
      decreases Node.Arr(entries), 1
    {
      // `done` is what the entries before i wrote
      ghost var done := Done;
      ghost var start := writer.events;
      var i := 0;
      while i < |entries|
        invariant 0 <= i <= |entries|
        invariant Valid()
        invariant done.outcome == Pass && writer.stack == old(writer.stack)
        invariant writer.events == start + done.events
        invariant Then(done, EntriesTrace(entries[i..], separator)) == EntriesTrace(entries, separator)
      {
        var o := WriteEntry(entries[i], Node.Arr(entries));
        EntriesTraceStep(entries, i, separator);
        StepEvents(start, done, EntryTrace(entries[i], separator), EntriesTrace(entries[i + 1..], separator),
                   EntriesTrace(entries, separator), writer.events);
        if o.Fail? {
          return o;
        }
        done := Then(done, EntryTrace(entries[i], separator));
        i := i + 1;
      }
      outcome := Pass;
    }

    /** The body of fromArray's loop for one `$key => $val` entry
        (src/XmlConstruct.php:42-54). `parent` is the array being walked. */
    method WriteEntry(entry: Entry, ghost parent: Node) returns (outcome: Outcome<Error>)
      requires Valid()
      requires parent.Arr? && entry in parent.entries
      modifies writer
      ensures Valid()
      ensures writer.events == old(writer.events) + EntryTrace(entry, separator).events
      ensures outcome == EntryTrace(entry, separator).outcome
      ensures outcome.Pass? ==> writer.stack == old(writer.stack)
      decreases parent, 0
    {
      match entry.value {
        case Arr(children) =>
          if entry.key.Index? {
            // numeric keys are skipped: the children join the current element
            outcome := FromArray(children);
          } else {
            ghost var before := writer.events;
            outcome := WriteKey(entry.key.name);
            if outcome.Fail? {
              return;
            }
            outcome := FromArray(children);
            ghost var k, c := KeyTrace(entry.key.name, separator), EntriesTrace(children, separator);
            WrapTrace(k, c, EntryTrace(entry, separator));
            AppendAssoc(before, k.events, c.events);
            if outcome.Fail? {
              return;
            }
            writer.EndElement();
            AppendAssoc(before, k.events + c.events, [Close]);
          }
        case Leaf(text) =>
          outcome := SetElement(KeyText(entry.key), text);
      }
    }

    /** getDocument (src/XmlConstruct.php:65-71): close the current element, end the
        document (which closes whatever is still open) and return the buffer. */
    method GetDocument() returns (doc: seq<Event>)
      requires Valid() && writer.stack != []
      modifies writer
      ensures Valid() && writer.stack == []
      ensures doc == writer.events
      ensures doc == old(writer.events) + Closes(|old(writer.stack)|)
    {
      ghost var n := |writer.stack|;
      writer.EndElement();
      writer.EndDocument();
      doc := writer.OutputMemory();
      assert [Close] + Closes(n - 1) == Closes(n);
    }

    /** writeKey (src/XmlConstruct.php:79-99). */
    method WriteKey(key: string) returns (outcome: Outcome<Error>)
      requires Valid()
      modifies writer
      ensures Valid()
      ensures writer.events == old(writer.events) + KeyTrace(key, separator).events
      ensures outcome == KeyTrace(key, separator).outcome
      ensures writer.stack == old(writer.stack) + [SplitKey(key, separator).name]
    {
      if Splits(key, separator) {
        var pieces := Explode(key, separator);
        KeyTraceWhenSplit(key, separator);
        ghost var before := writer.events;
        writer.StartElement(pieces[0]);
        var tokens := pieces[1..];
        if |tokens| % 2 == 1 {
          return Fail(InvalidAttributePair(tokens[|tokens| - 1]));
        }
        var attrs := Chunk(tokens);
        WriteAttributes(attrs);
        assert writer.events == before + ([Open(pieces[0])] + AttributeEvents(attrs));
        outcome := Pass;
      } else {
        KeyTraceWhenWhole(key, separator);
        writer.StartElement(key);
        outcome := Pass;
      }
    }

    /** The attribute loop of writeKey (src/XmlConstruct.php:92-94). */
    method WriteAttributes(attrs: seq<Attribute>)
      requires Valid() && writer.InStartTag()
      modifies writer
      ensures Valid() && writer.stack == old(writer.stack)
      ensures writer.events == old(writer.events) + AttributeEvents(attrs)
    {
      var j := 0;
      while j < |attrs|
        invariant 0 <= j <= |attrs|
        invariant Valid() && writer.InStartTag()
        invariant writer.stack == old(writer.stack)
        invariant writer.events == old(writer.events) + AttributeEvents(attrs[..j])
      {
        writer.WriteAttribute(attrs[j].name, attrs[j].value);
        assert attrs[..j + 1][..j] == attrs[..j];
        j := j + 1;
      }
      assert attrs[..j] == attrs;
    }

    /** setElement (src/XmlConstruct.php:108-115). PHP rejects a null text with a
        TypeError when the method is called, so nothing is written then. */
    method SetElement(name: string, text: Option<string>) returns (outcome: Outcome<Error>)
      requires Valid()
      modifies writer
      ensures Valid()
      ensures writer.events == old(writer.events) + LeafTrace(name, text, separator).events
      ensures outcome == LeafTrace(name, text, separator).outcome
      ensures outcome.Pass? ==> writer.stack == old(writer.stack)
    {
      if text.None? {
        return Fail(NullText);
      }
      ghost var before := writer.events;
      outcome := WriteKey(name);
      if outcome.Fail? {
        return;
      }
      writer.Text(text.value);
      writer.EndElement();
      LeafEvents(before, KeyTrace(name, separator), text.value, LeafTrace(name, text, separator));
    }
  }

  /** The whole use of the class: construct, fromArray, getDocument. */
  method Convert(rootElementName: string, separator: string, entries: seq<Entry>)
    returns (r: Result<seq<Event>, Error>)
    ensures r == Document(rootElementName, separator, entries)
    ensures r.Success? ==> Replay([], r.value) == Some([]) && AttributesInStartTags(r.value)
  {
    var xml := new XmlConstruct(rootElementName, separator);
    var o := xml.FromArray(entries);
    if o.Fail? {
      return Failure(o.error);
    }
    var doc := xml.GetDocument();
    assert Closes(1) == [Close];
    return Success(doc);
  }

  // ---------------------------------------------------------------------------
  // Properties

  lemma KeyTraceWhenSplit(key: string, sep: string)
    requires Splits(key, sep)
    ensures |sep| > 0
    ensures var pieces := Explode(key, sep);
      && SplitKey(key, sep).name == pieces[0]
      && KeyTrace(key, sep) ==
        if |pieces[1..]| % 2 == 1
        then Trace([Open(pieces[0])], Fail(InvalidAttributePair(pieces[1..][|pieces[1..]| - 1])))
        else Trace([Open(pieces[0])] + AttributeEvents(Chunk(pieces[1..])), Pass)
  {
  }

  lemma KeyTraceWhenWhole(key: string, sep: string)
    requires !Splits(key, sep)
    ensures SplitKey(key, sep).name == key
    ensures KeyTrace(key, sep) == Trace([Open(key)], Pass)
  {
  }

  /** writeKey on a key that parses (src/XmlConstruct.php:85-94): the start tag, then
      one attribute per pair of tokens after the name, in key order. */
  lemma KeyTraceAttributes(key: string, sep: string)
    requires ParseKey(key, sep).Success?
    ensures var t, s := KeyTrace(key, sep), SplitKey(key, sep);
      |t.events| == 1 + |s.tokens| / 2 && t.events[0] == Open(s.name)
      && forall k :: 1 <= k < |t.events| ==> t.events[k] == Attr(s.tokens[2 * k - 2], s.tokens[2 * k - 1])
  {
  }

  /** Unfolding EntriesTrace at position i. */
  lemma EntriesTraceStep(entries: seq<Entry>, i: nat, sep: string)
    requires i < |entries|
    ensures EntriesTrace(entries[i..], sep) == Then(EntryTrace(entries[i], sep), EntriesTrace(entries[i + 1..], sep))
  {
    assert entries[i..][0] == entries[i] && entries[i..][1..] == entries[i + 1..];
  }

  /** One iteration of fromArray's loop, on traces: `evs` is what has been written
      after `start` once `step` ran behind the passing prefix `done`. */
  lemma StepEvents(start: seq<Event>, done: Trace, step: Trace, rest: Trace, total: Trace, evs: seq<Event>)
    requires done.outcome == Pass
    requires Then(done, Then(step, rest)) == total
    requires evs == (start + done.events) + step.events
    ensures step.outcome.Fail? ==> evs == start + total.events && step.outcome == total.outcome
    ensures step.outcome.Pass? ==>
      && Then(done, step).outcome == Pass
      && evs == start + Then(done, step).events
      && Then(Then(done, step), rest) == total
  {
    assert (start + done.events) + step.events == start + (done.events + step.events);
  }

  /** A named array entry on traces: the key's element around the children. */
  lemma WrapTrace(k: Trace, c: Trace, total: Trace)
    requires k.outcome == Pass
    requires total == Then(k, Then(c, Trace([Close], Pass)))
    ensures c.outcome.Fail? ==> total == Trace(k.events + c.events, c.outcome)
    ensures c.outcome.Pass? ==> total == Trace((k.events + c.events) + [Close], Pass)
  {
    AppendAssoc(k.events, c.events, [Close]);
  }

  /** setElement on traces: the key's element, its text and its end tag. */
  lemma LeafEvents(before: seq<Event>, k: Trace, t: string, total: Trace)
    requires k.outcome == Pass
    requires total == Then(k, Trace([Event.Text(t), Close], Pass))
    ensures total.outcome == Pass
    ensures ((before + k.events) + [Event.Text(t)]) + [Close] == before + total.events
  {
    assert [Event.Text(t)] + [Close] == [Event.Text(t), Close];
    AppendAssoc(before + k.events, [Event.Text(t)], [Close]);
    AppendAssoc(before, k.events, [Event.Text(t), Close]);
  }

  lemma AppendAssoc(a: seq<Event>, b: seq<Event>, c: seq<Event>)
    ensures (a + b) + c == a + (b + c)
  {
  }

  lemma ThenAssoc(a: Trace, b: Trace, c: Trace)
    ensures Then(Then(a, b), c) == Then(a, Then(b, c))
  {
  }

  /** Entries are written in order: converting `a + b` is converting `a`, then `b`. */
  lemma {:induction false} TraceAppend(a: seq<Entry>, b: seq<Entry>, sep: string)
    ensures EntriesTrace(a + b, sep) == Then(EntriesTrace(a, sep), EntriesTrace(b, sep))
  {
    if a == [] {
      assert a + b == b;
    } else {
      assert (a + b)[0] == a[0] && (a + b)[1..] == a[1..] + b;
      TraceAppend(a[1..], b, sep);
      ThenAssoc(EntryTrace(a[0], sep), EntriesTrace(a[1..], sep), EntriesTrace(b, sep));
    }
  }

  /** A numeric key with an array value is transparent: its children are written in
      its place, inside the current element (src/XmlConstruct.php:43-45). */
  lemma IndexTransparent(a: seq<Entry>, i: int, m: seq<Entry>, b: seq<Entry>, sep: string)
    ensures EntriesTrace(a + [Entry(Index(i), Arr(m))] + b, sep) == EntriesTrace(a + m + b, sep)
  {
    var e := Entry(Index(i), Arr(m));
    assert a + [e] + b == a + ([e] + b);
    assert a + m + b == a + (m + b);
    TraceAppend(a, [e] + b, sep);
    TraceAppend(a, m + b, sep);
    TraceAppend([e], b, sep);
    TraceAppend(m, b, sep);
    assert EntriesTrace([e], sep) == Then(EntryTrace(e, sep), Done);
  }

  /** A null value aborts the conversion with a TypeError at that entry: nothing of
      it or of the entries after it is written (src/XmlConstruct.php:52-53, :108). */
  lemma NullAborts(a: seq<Entry>, k: Key, b: seq<Entry>, sep: string)
    requires EntriesTrace(a, sep).outcome == Pass
    ensures EntriesTrace(a + [Entry(k, Leaf(None))] + b, sep) == Trace(EntriesTrace(a, sep).events, Fail(NullText))
  {
    var e := Entry(k, Leaf(None));
    assert a + [e] + b == a + ([e] + b);
    TraceAppend(a, [e] + b, sep);
    assert ([e] + b)[0] == e;
  }

  // Success: which arrays convert

  /** An entry whose keys all parse and whose values are never null. */
  predicate EntryOk(e: Entry, sep: string)
    decreases e
  {
    match e.value
    case Leaf(text) => text.Some? && ParseKey(KeyText(e.key), sep).Success?
    case Arr(children) => (e.key.Name? ==> ParseKey(e.key.name, sep).Success?) && EntriesOk(children, sep)
  }

  predicate EntriesOk(es: seq<Entry>, sep: string)
    decreases es
  {
    forall i :: 0 <= i < |es| ==> EntryOk(es[i], sep)
  }

  /** fromArray completes exactly when no value is null and every key it writes has
      an even number of tokens; otherwise it throws. */
  lemma {:induction false} EntriesPassIff(es: seq<Entry>, sep: string)
    ensures EntriesTrace(es, sep).outcome == Pass <==> EntriesOk(es, sep)
    decreases es
  {
    if es != [] {
      EntryPassIff(es[0], sep);
      EntriesPassIff(es[1..], sep);
      assert EntriesOk(es, sep) <==> EntryOk(es[0], sep) && EntriesOk(es[1..], sep) by {
        if EntryOk(es[0], sep) && EntriesOk(es[1..], sep) {
          forall i | 0 <= i < |es|
            ensures EntryOk(es[i], sep)
          {
            if i > 0 {
              assert es[i] == es[1..][i - 1];
            }
          }
        }
        if EntriesOk(es, sep) {
          forall i | 0 <= i < |es[1..]|
            ensures EntryOk(es[1..][i], sep)
          {
            assert es[1..][i] == es[i + 1];
          }
        }
      }
    }
  }

  lemma {:induction false} EntryPassIff(e: Entry, sep: string)
    ensures EntryTrace(e, sep).outcome == Pass <==> EntryOk(e, sep)
    decreases e
  {
    match e.value
    case Leaf(_) =>
    case Arr(children) =>
      EntriesPassIff(children, sep);
  }

  // Balance: every element opened is closed

  lemma SingleBalanced(ev: Event)
    requires !ev.Open? && !ev.Close?
    ensures Balanced([ev])
  {
    forall st ensures Replay(st, [ev]) == Some(st) {
      assert [ev][1..] == [];
    }
  }

  lemma {:induction false} AttributesBalanced(attrs: seq<Attribute>)
    ensures Balanced(AttributeEvents(attrs))
  {
    if attrs == [] {
      forall st ensures Replay(st, []) == Some(st) {
      }
    } else {
      var last := attrs[|attrs| - 1];
      AttributesBalanced(attrs[..|attrs| - 1]);
      SingleBalanced(Attr(last.name, last.value));
      BalancedConcat(AttributeEvents(attrs[..|attrs| - 1]), [Attr(last.name, last.value)]);
    }
  }

  /** An element with attributes `attrs` around balanced content is balanced. */
  lemma ElementBalanced(name: string, attrs: seq<Event>, content: seq<Event>)
    requires Balanced(attrs) && Balanced(content)
    ensures Balanced(([Open(name)] + attrs) + (content + [Close]))
  {
    BalancedConcat(attrs, content);
    BalancedWrap(name, attrs + content);
    assert ([Open(name)] + (attrs + content)) + [Close] == ([Open(name)] + attrs) + (content + [Close]);
  }

  /** What fromArray writes when it completes closes every element it opens. */
  lemma {:induction false} EntriesBalanced(es: seq<Entry>, sep: string)
    ensures EntriesTrace(es, sep).outcome == Pass ==> Balanced(EntriesTrace(es, sep).events)
    decreases es
  {
    if es == [] {
      forall st ensures Replay(st, []) == Some(st) {
      }
    } else {
      EntryBalanced(es[0], sep);
      EntriesBalanced(es[1..], sep);
      if EntriesTrace(es, sep).outcome == Pass {
        BalancedConcat(EntryTrace(es[0], sep).events, EntriesTrace(es[1..], sep).events);
      }
    }
  }

  lemma {:induction false} EntryBalanced(e: Entry, sep: string)
    ensures EntryTrace(e, sep).outcome == Pass ==> Balanced(EntryTrace(e, sep).events)
    decreases e
  {
    match e.value
    case Leaf(text) =>
      if EntryTrace(e, sep).outcome == Pass {
        var pk := ParseKey(KeyText(e.key), sep).value;
        AttributesBalanced(pk.attributes);
        SingleBalanced(Event.Text(text.value));
        ElementBalanced(pk.name, AttributeEvents(pk.attributes), [Event.Text(text.value)]);
        assert [Event.Text(text.value)] + [Close] == [Event.Text(text.value), Close];
      }
    case Arr(children) =>
      EntriesBalanced(children, sep);
      if e.key.Name? && EntryTrace(e, sep).outcome == Pass {
        var pk := ParseKey(e.key.name, sep).value;
        AttributesBalanced(pk.attributes);
        ElementBalanced(pk.name, AttributeEvents(pk.attributes), EntriesTrace(children, sep).events);
      }
  }

  /** The document getDocument returns is well formed: the root element encloses
      everything and every element is closed. */
  lemma DocumentWellFormed(root: string, sep: string, es: seq<Entry>)
    requires Document(root, sep, es).Success?
    ensures var doc := Document(root, sep, es).value;
      && doc[0] == Open(root) && doc[|doc| - 1] == Close
      && Replay([], doc) == Some([])
  {
    EntriesBalanced(es, sep);
    BalancedWrap(root, EntriesTrace(es, sep).events);
  }

  // Flat arrays

  /** Every entry is a non-null scalar under a key that does not split. */
  predicate Flat(es: seq<Entry>, sep: string)
  {
    forall i :: 0 <= i < |es| ==>
      es[i].value.Leaf? && es[i].value.text.Some? && !Splits(KeyText(es[i].key), sep)
  }

  /** The expected writes for a flat array: one element per entry, named by the key
      and holding the value as text. */
  function FlatEvents(es: seq<Entry>): (evs: seq<Event>)
    requires forall i :: 0 <= i < |es| ==> es[i].value.Leaf? && es[i].value.text.Some?
    ensures |evs| == 3 * |es|
  {
    if es == [] then []
    else [Open(KeyText(es[0].key)), Event.Text(es[0].value.text.value), Close] + FlatEvents(es[1..])
  }

  /** A flat array becomes `<key>value</key>` for each entry, in order. */
  lemma {:induction false} FlatMapping(es: seq<Entry>, sep: string)
    requires Flat(es, sep)
    ensures EntriesTrace(es, sep) == Trace(FlatEvents(es), Pass)
  {
    if es != [] {
      var e := es[0];
      assert Flat(es[1..], sep) by {
        forall i | 0 <= i < |es[1..]|
          ensures es[1..][i] == es[i + 1]
        {
        }
      }
      FlatMapping(es[1..], sep);
      WholeKeyIffNotSplit(KeyText(e.key), sep);
      assert KeyTrace(KeyText(e.key), sep) == Trace([Open(KeyText(e.key))], Pass);
    }
  }

  // The documented examples

  /** A key without the separator opens one element named by the whole key. */
  lemma PlainKey(key: string, c: char)
    requires forall i :: 0 <= i < |key| ==> key[i] != c
    ensures KeyTrace(key, [c]) == Trace([Open(key)], Pass)
  {
    NoSeparator(key, [c]);
    KeyTraceWhenWhole(key, [c]);
  }

  /** `KEY1|ATTR1|VAL1|ATTR2|VAL2` (or with `:`) opens KEY1 with two attributes. */
  lemma AttributeKeyExample(c: char)
    requires c == '|' || c == ':'
    ensures KeyTrace("KEY1" + [c] + "ATTR1" + [c] + "VAL1" + [c] + "ATTR2" + [c] + "VAL2", [c])
         == Trace([Open("KEY1"), Attr("ATTR1", "VAL1"), Attr("ATTR2", "VAL2")], Pass)
  {
    var sep := [c];
    var attrs := [Attribute("ATTR1", "VAL1"), Attribute("ATTR2", "VAL2")];
    var pk := ParsedKey("KEY1", attrs);
    NoSeparator("KEY1", sep);
    NoSeparator("ATTR1", sep);
    NoSeparator("VAL1", sep);
    NoSeparator("ATTR2", sep);
    NoSeparator("VAL2", sep);
    assert Tokens(attrs) == ["ATTR1", "VAL1", "ATTR2", "VAL2"] by {
      assert attrs[1..][1..] == [];
    }
    var key := "KEY1" + sep + "ATTR1" + sep + "VAL1" + sep + "ATTR2" + sep + "VAL2";
    assert ComposeKey(pk, sep) == key by {
      assert [pk.name] + Tokens(attrs) == ["KEY1"] + ["ATTR1"] + ["VAL1"] + ["ATTR2"] + ["VAL2"];
      ImplodeCons(sep, "ATTR2", ["VAL2"]);
      assert ["ATTR2"] + ["VAL2"] == ["ATTR2", "VAL2"];
      ImplodeCons(sep, "VAL1", ["ATTR2", "VAL2"]);
      assert ["VAL1"] + ["ATTR2", "VAL2"] == ["VAL1", "ATTR2", "VAL2"];
      ImplodeCons(sep, "ATTR1", ["VAL1", "ATTR2", "VAL2"]);
      assert ["ATTR1"] + ["VAL1", "ATTR2", "VAL2"] == ["ATTR1", "VAL1", "ATTR2", "VAL2"];
      ImplodeCons(sep, "KEY1", ["ATTR1", "VAL1", "ATTR2", "VAL2"]);
      assert ["KEY1"] + ["ATTR1", "VAL1", "ATTR2", "VAL2"] == ["KEY1"] + ["ATTR1"] + ["VAL1"] + ["ATTR2"] + ["VAL2"];
    }
    ComposeParseRoundTrip(pk, sep);
    assert AttributeEvents(attrs) == [Attr("ATTR1", "VAL1"), Attr("ATTR2", "VAL2")];
  }

  /** `KEY1:ATTR1:VAL1:ATTR2` (or with `|`) opens KEY1, then fails at ATTR2. */
  lemma OddKeyExample(c: char)
    requires c == '|' || c == ':'
    ensures KeyTrace("KEY1" + [c] + "ATTR1" + [c] + "VAL1" + [c] + "ATTR2", [c])
         == Trace([Open("KEY1")], Fail(InvalidAttributePair("ATTR2")))
  {
    var sep := [c];
    var tokens := ["ATTR1", "VAL1", "ATTR2"];
    NoSeparator("KEY1", sep);
    NoSeparator("ATTR1", sep);
    NoSeparator("VAL1", sep);
    NoSeparator("ATTR2", sep);
    assert Implode(sep, tokens) == "ATTR1" + sep + "VAL1" + sep + "ATTR2" by {
      ImplodeCons(sep, "VAL1", ["ATTR2"]);
      assert ["VAL1"] + ["ATTR2"] == ["VAL1", "ATTR2"];
      ImplodeCons(sep, "ATTR1", ["VAL1", "ATTR2"]);
      assert ["ATTR1"] + ["VAL1", "ATTR2"] == tokens;
    }
    OddTokensFail("KEY1", tokens, sep);
    assert "KEY1" + sep + Implode(sep, tokens) == "KEY1" + sep + "ATTR1" + sep + "VAL1" + sep + "ATTR2";
  }

  /** The array `[KEY1 => VALUE1, KEY2 => VALUE2]` of the examples, with the first
      key given. */
  function Pair(key1: string, value2: Option<string>): seq<Entry>
  {
    [Entry(Name(key1), Leaf(Some("VALUE1"))), Entry(Name("KEY2"), Leaf(value2))]
  }

  /** Two entries, the first passing, are written one after the other. */
  lemma TwoEntries(e1: Entry, e2: Entry, sep: string)
    requires EntryTrace(e1, sep).outcome == Pass
    ensures EntriesTrace([e1, e2], sep) ==
      Trace(EntryTrace(e1, sep).events + EntryTrace(e2, sep).events, EntryTrace(e2, sep).outcome)
  {
    assert [e1, e2][0] == e1 && [e1, e2][1..] == [e2];
    assert EntriesTrace([e2], sep) == Then(EntryTrace(e2, sep), Done) by {
      assert [e2][0] == e2 && [e2][1..] == [];
    }
    assert EntryTrace(e2, sep).events + [] == EntryTrace(e2, sep).events;
  }

  /** `[[...]]`: the numeric wrapper adds nothing. */
  lemma WrapperTransparent(es: seq<Entry>, sep: string)
    ensures EntriesTrace([Entry(Index(0), Arr(es))], sep) == EntriesTrace(es, sep)
  {
    IndexTransparent([], 0, es, [], sep);
    assert [] + [Entry(Index(0), Arr(es))] + [] == [Entry(Index(0), Arr(es))];
    assert [] + es + [] == es;
  }

  /** The document of two plain leaves, laid out. */
  lemma TwoLeavesDocument(n1: string, t1: string, n2: string, t2: string, a: seq<Event>, b: seq<Event>)
    requires a == [Open(n1)] + [Event.Text(t1), Close]
    requires b == [Open(n2)] + [Event.Text(t2), Close]
    ensures [Open("ROOT")] + (a + b) + [Close] ==
      [Open("ROOT"), Open(n1), Event.Text(t1), Close, Open(n2), Event.Text(t2), Close, Close]
  {
  }

  /** The document of the attribute examples, laid out. */
  lemma AttributesDocument(a: seq<Event>, b: seq<Event>)
    requires a == [Open("KEY1"), Attr("ATTR1", "VAL1"), Attr("ATTR2", "VAL2")] + [Event.Text("VALUE1"), Close]
    requires b == [Open("KEY2")] + [Event.Text("VALUE2"), Close]
    ensures [Open("ROOT")] + (a + b) + [Close] ==
      [Open("ROOT"), Open("KEY1"), Attr("ATTR1", "VAL1"), Attr("ATTR2", "VAL2"),
       Event.Text("VALUE1"), Close, Open("KEY2"), Event.Text("VALUE2"), Close, Close]
  {
  }

  /** A non-null leaf under a key that opens `head` is `head`, its text and an
      end tag. */
  lemma LeafWritten(key: string, t: string, sep: string, head: seq<Event>)
    requires KeyTrace(key, sep) == Trace(head, Pass)
    ensures EntryTrace(Entry(Name(key), Leaf(Some(t))), sep) == Trace(head + [Event.Text(t), Close], Pass)
  {
  }

  /** A plain key-value array becomes one element per entry inside the root
      (tests/XmlConstructTest.php:17-31). */
  lemma FlatExample()
    ensures Document("ROOT", "|", Pair("KEY1", Some("VALUE2"))) ==
      Success([Open("ROOT"), Open("KEY1"), Event.Text("VALUE1"), Close,
               Open("KEY2"), Event.Text("VALUE2"), Close, Close])
  {
    var es := Pair("KEY1", Some("VALUE2"));
    PlainKey("KEY1", '|');
    PlainKey("KEY2", '|');
    LeafWritten("KEY1", "VALUE1", "|", [Open("KEY1")]);
    LeafWritten("KEY2", "VALUE2", "|", [Open("KEY2")]);
    TwoEntries(es[0], es[1], "|");
    TwoLeavesDocument("KEY1", "VALUE1", "KEY2", "VALUE2", EntryTrace(es[0], "|").events, EntryTrace(es[1], "|").events);
  }

  /** Wrapping the array in a numerically indexed array changes nothing
      (tests/XmlConstructTest.php:34-48). */
  lemma NumericWrapperExample()
    ensures Document("ROOT", "|", [Entry(Index(0), Arr(Pair("KEY1", Some("VALUE2"))))]) ==
      Success([Open("ROOT"), Open("KEY1"), Event.Text("VALUE1"), Close,
               Open("KEY2"), Event.Text("VALUE2"), Close, Close])
  {
    FlatExample();
    WrapperTransparent(Pair("KEY1", Some("VALUE2")), "|");
  }

  /** The attribute key of the examples with separator `c`. */
  function AttributeKey(c: char): string
  {
    "KEY1" + [c] + "ATTR1" + [c] + "VAL1" + [c] + "ATTR2" + [c] + "VAL2"
  }

  /** Attributes in the key, with the default and with a custom separator
      (tests/XmlConstructTest.php:51-65, :68-82). */
  lemma AttributesExample(c: char)
    requires c == '|' || c == ':'
    ensures Document("ROOT", [c], [Entry(Index(0), Arr(Pair(AttributeKey(c), Some("VALUE2"))))]) ==
      Success([Open("ROOT"), Open("KEY1"), Attr("ATTR1", "VAL1"), Attr("ATTR2", "VAL2"),
               Event.Text("VALUE1"), Close, Open("KEY2"), Event.Text("VALUE2"), Close, Close])
  {
    var es := Pair(AttributeKey(c), Some("VALUE2"));
    var head := [Open("KEY1"), Attr("ATTR1", "VAL1"), Attr("ATTR2", "VAL2")];
    AttributeKeyExample(c);
    PlainKey("KEY2", c);
    LeafWritten(AttributeKey(c), "VALUE1", [c], head);
    LeafWritten("KEY2", "VALUE2", [c], [Open("KEY2")]);
    TwoEntries(es[0], es[1], [c]);
    AttributesDocument(EntryTrace(es[0], [c]).events, EntryTrace(es[1], [c]).events);
    WrapperTransparent(es, [c]);
  }

  /** A key with a missing attribute value throws (tests/XmlConstructTest.php:85-94). */
  lemma OddExample()
    ensures Document("ROOT", ":", [Entry(Index(0), Arr(Pair("KEY1:ATTR1:VAL1:ATTR2", Some("VALUE2"))))]) ==
      Failure(InvalidAttributePair("ATTR2"))
  {
    OddKeyExample(':');
    OddKeyText();
    FirstKeyFails("ROOT", "KEY1:ATTR1:VAL1:ATTR2", ":", Some("VALUE2"));
    WrapperTransparent(Pair("KEY1:ATTR1:VAL1:ATTR2", Some("VALUE2")), ":");
  }

  /** The malformed key of the examples, spelled out with the colon. */
  lemma OddKeyText()
    ensures "KEY1" + [':'] + "ATTR1" + [':'] + "VAL1" + [':'] + "ATTR2" == "KEY1:ATTR1:VAL1:ATTR2"
  {
  }

  /** When the first key of the example array throws, no document is produced and
      the error is that key's. */
  lemma FirstKeyFails(root: string, key: string, sep: string, value2: Option<string>)
    requires KeyTrace(key, sep).outcome.Fail?
    ensures Document(root, sep, Pair(key, value2)) == Failure(KeyTrace(key, sep).outcome.error)
  {
    var es := Pair(key, value2);
    assert es[0] == Entry(Name(key), Leaf(Some("VALUE1")));
    assert EntriesTrace(es, sep).outcome == KeyTrace(key, sep).outcome;
  }

  /** A null value throws (tests/XmlConstructTest.php:97-106). */
  lemma NullExample()
    ensures Document("ROOT", ":", [Entry(Index(0), Arr(Pair("KEY1", None)))]) == Failure(NullText)
  {
    PlainKey("KEY1", ':');
    TwoEntries(Pair("KEY1", None)[0], Pair("KEY1", None)[1], ":");
    WrapperTransparent(Pair("KEY1", None), ":");
  }

  // The separator that is never stored

  /** With the separator the constructor as written leaves behind, no key is ever
      split: every key opens one element named by the whole key. */
  lemma UnstoredSeparator(key: string)
    ensures ParseKey(key, "") == Success(ParsedKey(key, []))
    ensures KeyTrace(key, "") == Trace([Open(key)], Pass)
  {
    assert IndexOf(key, "") == Some(0);
    KeyTraceWhenWhole(key, "");
  }

  /** As written, the attribute example writes an element named by the whole key,
      and the malformed key does not throw. */
  lemma UnstoredSeparatorExample()
    ensures Document("ROOT", "", [Entry(Index(0), Arr(Pair(AttributeKey('|'), Some("VALUE2"))))]) ==
      Success([Open("ROOT"), Open("KEY1|ATTR1|VAL1|ATTR2|VAL2"), Event.Text("VALUE1"), Close,
               Open("KEY2"), Event.Text("VALUE2"), Close, Close])
    ensures Document("ROOT", "", [Entry(Index(0), Arr(Pair("KEY1:ATTR1:VAL1:ATTR2", Some("VALUE2"))))]).Success?
  {
    var es := Pair(AttributeKey('|'), Some("VALUE2"));
    assert AttributeKey('|') == "KEY1|ATTR1|VAL1|ATTR2|VAL2";
    UnstoredSeparator(AttributeKey('|'));
    UnstoredSeparator("KEY2");
    LeafWritten(AttributeKey('|'), "VALUE1", "", [Open(AttributeKey('|'))]);
    LeafWritten("KEY2", "VALUE2", "", [Open("KEY2")]);
    TwoEntries(es[0], es[1], "");
    TwoLeavesDocument(AttributeKey('|'), "VALUE1", "KEY2", "VALUE2", EntryTrace(es[0], "").events, EntryTrace(es[1], "").events);
    WrapperTransparent(es, "");
    var odd := Pair("KEY1:ATTR1:VAL1:ATTR2", Some("VALUE2"));
    UnstoredSeparator("KEY1:ATTR1:VAL1:ATTR2");
    LeafWritten("KEY1:ATTR1:VAL1:ATTR2", "VALUE1", "", [Open("KEY1:ATTR1:VAL1:ATTR2")]);
    TwoEntries(odd[0], odd[1], "");
    WrapperTransparent(odd, "");
  }
}
