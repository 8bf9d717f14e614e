/** The XML writer that XmlConstruct inherits from (PHP's XMLWriter), kept abstract:
    what it records is the sequence of write calls it received, and what it owns is
    the stack of elements that are open. Text rendering, indentation and escaping
    belong to the library and are not part of this model. */
module Writer {
  import opened Wrappers

  /** One write call received by the writer. */
  datatype Event = Open(name: string) | Attr(name: string, value: string) | Text(text: string) | Close

  /** The open-element stack after the writer receives `evs` with `st` open, or None
      when a Close arrives with nothing open. */
  function Replay(st: seq<string>, evs: seq<Event>): Option<seq<string>>
    decreases |evs|
  {
    if evs == [] then Some(st)
    else match evs[0]
      case Open(n) => Replay(st + [n], evs[1..])
      case Close => if st == [] then None else Replay(st[..|st| - 1], evs[1..])
      case Attr(_, _) => Replay(st, evs[1..])
      case Text(_) => Replay(st, evs[1..])
  }

  /** Every Attr event comes directly after the Open it belongs to or after another
      Attr, that is, before any content of the element. */
  predicate AttributesInStartTags(evs: seq<Event>)
    decreases |evs|
  {
    evs == [] ||
    (AttributesInStartTags(evs[..|evs| - 1]) &&
     (evs[|evs| - 1].Attr? ==> |evs| >= 2 && (evs[|evs| - 2].Open? || evs[|evs| - 2].Attr?)))
  }

  /** `evs` closes exactly what it opens, in LIFO order, whatever is already open. */
  ghost predicate Balanced(evs: seq<Event>)
  {
    forall st :: Replay(st, evs) == Some(st)
  }

  /** `n` Close events. */
  function Closes(n: nat): (evs: seq<Event>)
    ensures |evs| == n && forall i :: 0 <= i < n ==> evs[i] == Close
  {
    if n == 0 then [] else Closes(n - 1) + [Close]
  }

  /** Replaying in two parts is replaying the whole. */
  lemma {:induction false} ReplayAppend(st: seq<string>, a: seq<Event>, b: seq<Event>)
    ensures Replay(st, a + b) == match Replay(st, a) case None => None case Some(m) => Replay(m, b)
    decreases |a|
  {
    if a != [] {
      assert (a + b)[0] == a[0] && (a + b)[1..] == a[1..] + b;
      match a[0]
      case Open(n) => ReplayAppend(st + [n], a[1..], b);
      case Close => if st != [] { ReplayAppend(st[..|st| - 1], a[1..], b); }
      case Attr(_, _) => ReplayAppend(st, a[1..], b);
      case Text(_) => ReplayAppend(st, a[1..], b);
    } else {
      assert a + b == b;
    }
  }

  /** Balanced pieces put one after the other are balanced. */
  lemma BalancedConcat(a: seq<Event>, b: seq<Event>)
    requires Balanced(a) && Balanced(b)
    ensures Balanced(a + b)
  {
    forall st ensures Replay(st, a + b) == Some(st) {
      ReplayAppend(st, a, b);
    }
  }

  /** An element that opens, receives balanced content and closes is balanced. */
  lemma BalancedWrap(name: string, inner: seq<Event>)
    requires Balanced(inner)
    ensures Balanced([Open(name)] + inner + [Close])
  {
    forall st ensures Replay(st, [Open(name)] + inner + [Close]) == Some(st) {
      ReplayAppend(st, [Open(name)], inner + [Close]);
      ReplayAppend(st + [name], inner, [Close]);
      assert ([Open(name)] + inner) + [Close] == [Open(name)] + (inner + [Close]);
    }
  }

  /** Closing `n` elements pops the top `n` names of the stack. */
  lemma {:induction false} ReplayCloses(st: seq<string>, n: nat)
    requires n <= |st|
    ensures Replay(st, Closes(n)) == Some(st[..|st| - n])
  {
    if n > 0 {
      ReplayCloses(st, n - 1);
      ReplayAppend(st, Closes(n - 1), [Close]);
      var m := st[..|st| - (n - 1)];
      assert Replay(m, [Close]) == Replay(m[..|m| - 1], []);
      assert m[..|m| - 1] == st[..|st| - n];
    } else {
      assert st[..|st|] == st;
    }
  }

  /** The model of XMLWriter writing into memory. */
  class XmlWriter {
    /** Names of the elements opened and not yet closed, innermost last. */
    var stack: seq<string>
    /** Every write call received so far, in order (the memory buffer). */
    var events: seq<Event>

    ghost predicate Valid()
      reads this
    {
      Replay([], events) == Some(stack) && AttributesInStartTags(events)
    }

    /** No content has been written yet to the innermost open element, so an
        attribute may still be attached to it. */
    predicate InStartTag()
      reads this
    {
      |events| > 0 && (events[|events| - 1].Open? || events[|events| - 1].Attr?)
    }

    /** openMemory: an empty buffer and nothing open. */
    constructor ()
      ensures Valid() && stack == [] && events == []
    {
      stack := [];
      events := [];
    }

    /** startElement: open `name` inside the current element. */
    method StartElement(name: string)
      requires Valid()
      modifies this
      ensures Valid() && InStartTag()
      ensures stack == old(stack) + [name]
      ensures events == old(events) + [Open(name)]
    {
      ReplayAppend([], events, [Open(name)]);
      assert (events + [Open(name)])[..|events|] == events;
      stack := stack + [name];
      events := events + [Open(name)];
    }

    /** writeAttribute: attach an attribute to the element whose start tag is open. */
    method WriteAttribute(name: string, value: string)
      requires Valid() && InStartTag()
      modifies this
      ensures Valid() && InStartTag()
      ensures stack == old(stack)
      ensures events == old(events) + [Attr(name, value)]
    {
      ReplayAppend([], events, [Attr(name, value)]);
      assert (events + [Attr(name, value)])[..|events|] == events;
      events := events + [Attr(name, value)];
    }

    /** text: write character data into the current element. */
    method Text(text: string)
      requires Valid()
      modifies this
      ensures Valid() && !InStartTag()
      ensures stack == old(stack)
      ensures events == old(events) + [Event.Text(text)]
    {
      ReplayAppend([], events, [Event.Text(text)]);
      assert (events + [Event.Text(text)])[..|events|] == events;
      events := events + [Event.Text(text)];
    }

    /** endElement: close the innermost open element. */
    method EndElement()
      requires Valid() && stack != []
      modifies this
      ensures Valid() && !InStartTag()
      ensures stack == old(stack)[..|old(stack)| - 1]
      ensures events == old(events) + [Close]
    {
      ReplayAppend([], events, [Close]);
      assert (events + [Close])[..|events|] == events;
      stack := stack[..|stack| - 1];
      events := events + [Close];
    }

    /** endDocument: close every element still open. */
    method EndDocument()
      requires Valid()
      modifies this
      ensures Valid() && stack == []
      ensures events == old(events) + Closes(|old(stack)|)
    {
      while stack != []
        invariant Valid()
        invariant |stack| <= |old(stack)|
        invariant events == old(events) + Closes(|old(stack)| - |stack|)
        decreases |stack|
      {
        EndElement();
      }
    }

    /** outputMemory: the document written so far. */
    method OutputMemory() returns (doc: seq<Event>)
      ensures doc == events
    {
      doc := events;
    }
  }
}
