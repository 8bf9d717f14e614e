/** The composite-key grammar of XmlConstruct::writeKey (src/XmlConstruct.php:79-99):
    `NAME(SEP ATTR SEP VALUE)*`, split with the string functions PHP provides
    (mb_strpos, explode, array_chunk), modelled here as pure functions on strings. */
module KeyGrammar {
  import opened Wrappers

  /** An attribute written onto the element a composite key opens. */
  datatype Attribute = Attribute(name: string, value: string)

  /** A key cut into the element name and the tokens that follow it. */
  datatype Split = Split(name: string, tokens: seq<string>)

  /** A key that parsed: the element name and its attributes, in key order. */
  datatype ParsedKey = ParsedKey(name: string, attributes: seq<Attribute>)

  /** `sep` occurs in `s` starting at position `i`. */
  predicate OccursAt(s: string, sep: string, i: int)
  {
    0 <= i && i + |sep| <= |s| && s[i..i + |sep|] == sep
  }

  predicate Contains(s: string, sep: string)
  {
    exists i :: 0 <= i <= |s| && OccursAt(s, sep, i)
  }

  lemma OccursShift(s: string, sep: string)
    requires |s| > 0
    ensures forall i :: 1 <= i ==> (OccursAt(s, sep, i) <==> OccursAt(s[1..], sep, i - 1))
  {
    forall i | 1 <= i
      ensures OccursAt(s, sep, i) <==> OccursAt(s[1..], sep, i - 1)
    {
      if i + |sep| <= |s| {
        assert s[1..][i - 1..i - 1 + |sep|] == s[i..i + |sep|];
      }
    }
  }

  /** mb_strpos: the position of the first occurrence of `sep` in `s`, None when there
      is none. The empty separator occurs at position 0 of every string. */
  function IndexOf(s: string, sep: string): (r: Option<nat>)
    ensures r.Some? ==> OccursAt(s, sep, r.value)
    decreases |s|
  {
    if |s| < |sep| then None
    else if s[..|sep|] == sep then Some(0)
    else
      OccursShift(s, sep);
      match IndexOf(s[1..], sep)
      case None => None
      case Some(k) => Some(k + 1)
  }

  /** mb_strpos finds the first occurrence, and reports none only when there is none. */
  lemma {:induction false} IndexOfFirst(s: string, sep: string)
    ensures IndexOf(s, sep).Some? ==> forall j :: 0 <= j < IndexOf(s, sep).value ==> !OccursAt(s, sep, j)
    ensures IndexOf(s, sep).None? ==> !Contains(s, sep)
    decreases |s|
  {
    if |s| >= |sep| && s[..|sep|] != sep {
      OccursShift(s, sep);
      IndexOfFirst(s[1..], sep);
      assert !OccursAt(s, sep, 0);
    }
  }

  lemma FirstOccurrence(s: string, sep: string, p: nat)
    requires OccursAt(s, sep, p)
    requires forall j :: 0 <= j < p ==> !OccursAt(s, sep, j)
    ensures IndexOf(s, sep) == Some(p)
  {
    assert p <= |s|;
    assert Contains(s, sep);
    IndexOfFirst(s, sep);
    assert OccursAt(s, sep, IndexOf(s, sep).value);
  }

  /** With a one-character separator, the first one in `p0 + sep + rest` is the one
      after `p0` when `p0` holds none. */
  lemma JoinFirstOccurrence(p0: string, sep: string, rest: string)
    requires |sep| == 1 && !Contains(p0, sep)
    ensures IndexOf(p0 + sep + rest, sep) == Some(|p0|)
  {
    var s := p0 + sep + rest;
    assert s[|p0|..|p0| + 1] == sep;
    forall j | 0 <= j < |p0|
      ensures !OccursAt(s, sep, j)
    {
      assert s[j..j + 1] == p0[j..j + 1];
      assert !OccursAt(p0, sep, j);
    }
    FirstOccurrence(s, sep, |p0|);
  }

  /** The key is split: mb_strpos returns a truthy position, which excludes both "not
      found" and position 0 (src/XmlConstruct.php:81). */
  predicate Splits(key: string, sep: string)
    ensures Splits(key, sep) ==> 0 < |sep| < |key| && Contains(key, sep)
  {
    var i := IndexOf(key, sep);
    i.Some? && i.value > 0
  }

  /** explode: the pieces of `s` between the occurrences of `sep`, scanning left to right. */
  function Explode(s: string, sep: string): (pieces: seq<string>)
    requires |sep| > 0
    ensures |pieces| >= 1
    decreases |s|
  {
    match IndexOf(s, sep)
    case None => [s]
    case Some(p) => [s[..p]] + Explode(s[p + |sep|..], sep)
  }

  /** implode: the pieces joined with `sep`. */
  function Implode(sep: string, pieces: seq<string>): string
  {
    if pieces == [] then ""
    else if |pieces| == 1 then pieces[0]
    else pieces[0] + sep + Implode(sep, pieces[1..])
  }

  /** array_chunk($tokens, 2) read as (attribute name, attribute value) pairs. */
  function Chunk(tokens: seq<string>): (attrs: seq<Attribute>)
    requires |tokens| % 2 == 0
    ensures 2 * |attrs| == |tokens|
    ensures forall k :: 0 <= k < |attrs| ==> attrs[k] == Attribute(tokens[2 * k], tokens[2 * k + 1])
  {
    if tokens == [] then []
    else
      var rest := Chunk(tokens[2..]);
      assert forall k :: 1 <= k < |rest| + 1 ==> tokens[2 * k] == tokens[2..][2 * (k - 1)];
      [Attribute(tokens[0], tokens[1])] + rest
  }

  /** The attribute pairs laid back out as the flat token list of a key. */
  function Tokens(attrs: seq<Attribute>): seq<string>
  {
    if attrs == [] then [] else [attrs[0].name, attrs[0].value] + Tokens(attrs[1..])
  }

  /** Element name and tokens of a key: the exploded pieces when the key splits, the
      whole key otherwise (src/XmlConstruct.php:81-85, :95-98). */
  function SplitKey(key: string, sep: string): (r: Split)
    ensures r.name <= key
    ensures Splits(key, sep) <==> r.tokens != []
    ensures Splits(key, sep) ==> r.name != ""
  {
    if Splits(key, sep) then
      assert |sep| > 0;
      var pieces := Explode(key, sep);
      Split(pieces[0], pieces[1..])
    else
      Split(key, [])
  }

  /** The parity check and pairing of writeKey (src/XmlConstruct.php:87-93): an odd
      number of tokens after the name fails with the last token. */
  function ParseKey(key: string, sep: string): (r: Result<ParsedKey, string>)
    ensures r.Failure? ==> Splits(key, sep)
    ensures r.Success? ==> r.value.name == SplitKey(key, sep).name
    ensures r.Success? ==> 2 * |r.value.attributes| == |SplitKey(key, sep).tokens|
  {
    var s := SplitKey(key, sep);
    if |s.tokens| % 2 == 1 then Failure(s.tokens[|s.tokens| - 1])
    else Success(ParsedKey(s.name, Chunk(s.tokens)))
  }

  /** The key a name and its attributes are written as. */
  function ComposeKey(pk: ParsedKey, sep: string): string
  {
    Implode(sep, [pk.name] + Tokens(pk.attributes))
  }

  // ---------------------------------------------------------------------------
  // Properties

  /** The first piece of a split ends at the first separator, so it holds none. */
  lemma PrefixBeforeFirst(s: string, sep: string, p: nat)
    requires |sep| > 0
    requires OccursAt(s, sep, p)
    requires forall j :: 0 <= j < p ==> !OccursAt(s, sep, j)
    ensures !Contains(s[..p], sep)
  {
    forall j | 0 <= j <= p
      ensures !OccursAt(s[..p], sep, j)
    {
      if j + |sep| <= p {
        assert s[..p][j..j + |sep|] == s[j..j + |sep|];
        assert !OccursAt(s, sep, j);
      }
    }
  }

  /** explode never leaves a separator inside a piece. */
  lemma {:induction false} ExplodePiecesSeparatorFree(s: string, sep: string)
    requires |sep| > 0
    ensures forall k :: 0 <= k < |Explode(s, sep)| ==> !Contains(Explode(s, sep)[k], sep)
    decreases |s|
  {
    IndexOfFirst(s, sep);
    match IndexOf(s, sep)
    case None =>
    case Some(p) =>
      PrefixBeforeFirst(s, sep, p);
      ExplodePiecesSeparatorFree(s[p + |sep|..], sep);
  }

  /** Joining the pieces of explode with the separator gives back the string. */
  lemma {:induction false} ImplodeExplode(s: string, sep: string)
    requires |sep| > 0
    ensures Implode(sep, Explode(s, sep)) == s
    decreases |s|
  {
    match IndexOf(s, sep)
    case None =>
    case Some(p) =>
      var tail := s[p + |sep|..];
      ImplodeExplode(tail, sep);
      ImplodeCons(sep, s[..p], Explode(tail, sep));
      CutAt(s, sep, p);
  }

  lemma ImplodeCons(sep: string, first: string, rest: seq<string>)
    requires |rest| >= 1
    ensures Implode(sep, [first] + rest) == first + sep + Implode(sep, rest)
  {
    assert ([first] + rest)[1..] == rest;
  }

  /** A string is the part before an occurrence, the separator, and the part after. */
  lemma CutAt(s: string, sep: string, p: nat)
    requires OccursAt(s, sep, p)
    ensures s == s[..p] + sep + s[p + |sep|..]
  {
    assert s == s[..p] + s[p..p + |sep|] + s[p + |sep|..];
  }

  /** With a one-character separator, explode undoes implode on separator-free pieces. */
  lemma {:induction false} ExplodeImplode(sep: string, pieces: seq<string>)
    requires |sep| == 1 && |pieces| >= 1
    requires forall k :: 0 <= k < |pieces| ==> !Contains(pieces[k], sep)
    ensures Explode(Implode(sep, pieces), sep) == pieces
    decreases |pieces|
  {
    var p0 := pieces[0];
    if |pieces| == 1 {
      assert IndexOf(p0, sep) == None;
    } else {
      var rest := Implode(sep, pieces[1..]);
      var s := p0 + sep + rest;
      assert Implode(sep, pieces) == s;
      JoinFirstOccurrence(p0, sep, rest);
      assert s[|p0| + 1..] == rest;
      assert s[..|p0|] == p0;
      ExplodeImplode(sep, pieces[1..]);
      assert pieces == [p0] + pieces[1..];
    }
  }

  /** mb_strpos is truthy exactly when the separator is non-empty, occurs in the key,
      and does not occur at position 0. */
  lemma SplitsIff(key: string, sep: string)
    ensures Splits(key, sep) <==> |sep| > 0 && Contains(key, sep) && !OccursAt(key, sep, 0)
  {
    if |sep| > 0 && Contains(key, sep) && !OccursAt(key, sep, 0) {
      IndexOfFirst(key, sep);
      assert IndexOf(key, sep).Some?;
    }
    if |sep| == 0 {
      assert OccursAt(key, sep, 0);
    }
  }

  /** A key that is not split opens one element named by the whole key, with no
      attributes; a split key never yields the whole key as its name. */
  lemma {:induction false} WholeKeyIffNotSplit(key: string, sep: string)
    ensures !Splits(key, sep) <==> ParseKey(key, sep) == Success(ParsedKey(key, []))
  {
    if Splits(key, sep) {
      var p := IndexOf(key, sep).value;
      assert Explode(key, sep)[0] == key[..p];
      assert |key[..p]| < |key|;
    }
  }

  /** A split key: the name is the first piece, free of separators, and the
      attributes are the following tokens paired in order. */
  lemma {:induction false} SplitPairs(key: string, sep: string)
    requires Splits(key, sep)
    requires ParseKey(key, sep).Success?
    ensures var pieces := Explode(key, sep);
      var pk := ParseKey(key, sep).value;
      && pk.name == pieces[0] && pk.name != ""
      && !Contains(pk.name, sep)
      && |pieces| == 1 + 2 * |pk.attributes|
      && forall k :: 0 <= k < |pk.attributes| ==>
           pk.attributes[k] == Attribute(pieces[2 * k + 1], pieces[2 * k + 2])
  {
    var pieces := Explode(key, sep);
    var p := IndexOf(key, sep).value;
    assert pieces[0] == key[..p];
    ExplodePiecesSeparatorFree(key, sep);
    var tokens := pieces[1..];
    forall k | 0 <= k < |tokens| / 2
      ensures tokens[2 * k] == pieces[2 * k + 1] && tokens[2 * k + 1] == pieces[2 * k + 2]
    {
    }
  }

  /** An odd number of tokens after the name fails, carrying the last piece of the
      key; it happens only for split keys with an even number of pieces. */
  lemma MalformedIff(key: string, sep: string, last: string)
    ensures ParseKey(key, sep) == Failure(last) <==>
      Splits(key, sep) && |Explode(key, sep)| % 2 == 0 &&
      last == Explode(key, sep)[|Explode(key, sep)| - 1]
  {
  }

  /** Split round-trip: joining the element name and all tokens with the separator
      gives back the original key (src/XmlConstruct.php:82-85). */
  lemma SplitRoundTrip(key: string, sep: string)
    ensures Implode(sep, [SplitKey(key, sep).name] + SplitKey(key, sep).tokens) == key
  {
    if Splits(key, sep) {
      var pieces := Explode(key, sep);
      assert [pieces[0]] + pieces[1..] == pieces;
      ImplodeExplode(key, sep);
    }
  }

  /** Pairing and laying back out are inverse. */
  lemma {:induction false} TokensChunk(tokens: seq<string>)
    requires |tokens| % 2 == 0
    ensures Tokens(Chunk(tokens)) == tokens
    decreases |tokens|
  {
    if tokens != [] {
      TokensChunk(tokens[2..]);
      assert Chunk(tokens)[1..] == Chunk(tokens[2..]);
    }
  }

  lemma {:induction false} ChunkTokens(attrs: seq<Attribute>)
    ensures |Tokens(attrs)| == 2 * |attrs|
    ensures Chunk(Tokens(attrs)) == attrs
  {
    if attrs != [] {
      ChunkTokens(attrs[1..]);
      var t := Tokens(attrs);
      assert t[2..] == Tokens(attrs[1..]);
    }
  }

  /** A successful parse composes back into the key it came from. */
  lemma ParseComposeRoundTrip(key: string, sep: string)
    requires ParseKey(key, sep).Success?
    ensures ComposeKey(ParseKey(key, sep).value, sep) == key
  {
    var s := SplitKey(key, sep);
    TokensChunk(s.tokens);
    SplitRoundTrip(key, sep);
  }

  /** Composing a name and attributes into a key with a one-character separator and
      parsing it back gives them again, provided no part holds the separator and the
      name is non-empty whenever there are attributes. */
  lemma ComposeParseRoundTrip(pk: ParsedKey, sep: string)
    requires |sep| == 1
    requires pk.attributes != [] ==> pk.name != ""
    requires !Contains(pk.name, sep)
    requires forall k :: 0 <= k < |pk.attributes| ==>
      !Contains(pk.attributes[k].name, sep) && !Contains(pk.attributes[k].value, sep)
    ensures ParseKey(ComposeKey(pk, sep), sep) == Success(pk)
  {
    var tokens := Tokens(pk.attributes);
    var key := ComposeKey(pk, sep);
    ChunkTokens(pk.attributes);
    if pk.attributes == [] {
      assert key == pk.name;
      assert IndexOf(key, sep).None?;
    } else {
      ImplodeCons(sep, pk.name, tokens);
      TokensSeparatorFree(pk.attributes, sep);
      SplitOfJoin(pk.name, tokens, sep);
    }
  }

  /** A non-empty, separator-free name joined to separator-free tokens splits back
      into them. */
  lemma SplitOfJoin(name: string, tokens: seq<string>, sep: string)
    requires |sep| == 1 && name != "" && tokens != []
    requires !Contains(name, sep)
    requires forall k :: 0 <= k < |tokens| ==> !Contains(tokens[k], sep)
    ensures SplitKey(name + sep + Implode(sep, tokens), sep) == Split(name, tokens)
  {
    var pieces := [name] + tokens;
    var key := name + sep + Implode(sep, tokens);
    assert pieces[0] == name && pieces[1..] == tokens;
    assert forall k :: 0 <= k < |pieces| ==> !Contains(pieces[k], sep);
    ImplodeCons(sep, name, tokens);
    ExplodeImplode(sep, pieces);
    JoinFirstOccurrence(name, sep, Implode(sep, tokens));
  }

  lemma {:induction false} TokensSeparatorFree(attrs: seq<Attribute>, sep: string)
    requires forall k :: 0 <= k < |attrs| ==>
      !Contains(attrs[k].name, sep) && !Contains(attrs[k].value, sep)
    ensures forall k :: 0 <= k < |Tokens(attrs)| ==> !Contains(Tokens(attrs)[k], sep)
  {
    if attrs != [] {
      TokensSeparatorFree(attrs[1..], sep);
    }
  }

  /** An odd number of separator-free tokens behind a non-empty name fails with the
      last token (src/XmlConstruct.php:87-90). */
  lemma OddTokensFail(name: string, tokens: seq<string>, sep: string)
    requires |sep| == 1 && name != "" && |tokens| % 2 == 1
    requires !Contains(name, sep)
    requires forall k :: 0 <= k < |tokens| ==> !Contains(tokens[k], sep)
    ensures ParseKey(name + sep + Implode(sep, tokens), sep) == Failure(tokens[|tokens| - 1])
    ensures SplitKey(name + sep + Implode(sep, tokens), sep).name == name
  {
    SplitOfJoin(name, tokens, sep);
  }

  /** A string none of whose characters is the one-character separator holds none. */
  lemma NoSeparator(s: string, sep: string)
    requires |sep| == 1
    requires forall i :: 0 <= i < |s| ==> s[i] != sep[0]
    ensures !Contains(s, sep)
  {
    forall i | 0 <= i <= |s|
      ensures !OccursAt(s, sep, i)
    {
      if i < |s| {
        assert s[i..i + 1][0] == s[i];
      }
    }
  }
}
