/** The byte-level tokenizer of main.ts (encodeString, decodeString, decodeTokens, main.ts:244-284).
    Text is first remapped character by character through GPT-2's byte table, then cut greedily:
    each step takes the longest vocabulary key that starts the rest of the text. The vocabulary,
    read from encoder.json in the source, is a parameter here. */
module Tokenizer {
  import opened Outcomes
  import opened ByteTable

  /** encoder.json: each key's token id, and the keys in the order Object.keys and for-in visit
      them. */
  datatype Vocabulary = Vocabulary(keys: seq<string>, ids: map<string, nat>)

  /** keys lists every key of ids exactly once, as Object.keys does. */
  ghost predicate WellFormed(v: Vocabulary)
  {
    && (forall i, j :: 0 <= i < j < |v.keys| ==> v.keys[i] != v.keys[j])
    && (forall k :: k in v.ids <==> k in v.keys)
  }

  /** No two keys share a token id. */
  ghost predicate Injective(v: Vocabulary)
  {
    forall k, l :: k in v.ids && l in v.ids && k != l ==> v.ids[k] != v.ids[l]
  }

  /** s.startsWith(p). */
  predicate StartsWith(s: string, p: string)
  {
    |p| <= |s| && s[..|p|] == p
  }

  /** pieces.join(''). */
  function Concat(pieces: seq<string>): string
  {
    if |pieces| == 0 then "" else pieces[0] + Concat(pieces[1..])
  }

  // ---------------------------------------------------------------------------------------
  // Remapping through the byte table

  /** One character of the remap of encodeString (main.ts:251): a character whose code is in
      the table becomes the table's character; any other looks up undefined, which join renders
      as nothing. */
  function RemapChar(lookup: map<nat, char>, c: char): (r: string)
    ensures |r| <= 1
    ensures lookup == LookupTable() ==>
      (|r| == 1 <==> c as int < 256) && (|r| == 1 ==> r[0] == ByteChar(c as int))
  {
    var code: nat := c as int;
    if code in lookup then [lookup[code]] else ""
  }

  /** str.split('').map((c) => byteMapping[c.charCodeAt(0)]).join('') (main.ts:251). */
  function Remap(lookup: map<nat, char>, s: string): (r: string)
    ensures |r| <= |s|
    ensures lookup == LookupTable() && (forall i :: 0 <= i < |s| ==> s[i] as int < 256) ==>
      |r| == |s| && forall i :: 0 <= i < |s| ==> r[i] == ByteChar(s[i] as int)
  {
    if |s| == 0 then "" else RemapChar(lookup, s[0]) + Remap(lookup, s[1..])
  }

  /** One character of decodeString (main.ts:270-273): a table character becomes the character
      of its byte. Any other character looks up undefined, and String.fromCharCode(undefined) is
      "\0"; a character outside the 16-bit range is two UTF-16 units to split(''), so two "\0". */
  function DecodeChar(c: char): (r: string)
    ensures 1 <= |r| <= 2 && forall k :: 0 <= k < |r| ==> r[k] as int < 256
    ensures c in UnlookupTable() ==> |r| == 1 && ByteChar(r[0] as int) == c
  {
    var unlookup := UnlookupTable();
    if c in unlookup then
      TablesAreInverse();
      [unlookup[c] as char]
    else if c as int >= 0x10000 then "\0\0"
    else "\0"
  }

  /** decodeString(str) (main.ts:270-273). */
  function DecodeString(s: string): (r: string)
    ensures |s| <= |r| && forall i :: 0 <= i < |r| ==> r[i] as int < 256
    ensures (forall i :: 0 <= i < |s| ==> s[i] in UnlookupTable()) ==>
      |r| == |s| && forall i :: 0 <= i < |s| ==> ByteChar(r[i] as int) == s[i]
  {
    if |s| == 0 then "" else DecodeChar(s[0]) + DecodeString(s[1..])
  }

  /** decodeString undoes the remap on every string whose character codes are all below 256. */
  lemma DecodeRemap(s: string)
    requires forall i :: 0 <= i < |s| ==> s[i] as int < 256
    ensures DecodeString(Remap(LookupTable(), s)) == s
  {
    var r := Remap(LookupTable(), s);
    RemapInTable(s);
    var d := DecodeString(r);
    assert |d| == |s|;
    ByteCharInjective();
    forall i | 0 <= i < |s|
      ensures d[i] == s[i]
    {
      assert ByteChar(d[i] as int) == r[i] == ByteChar(s[i] as int);
    }
  }

  /** Every character of a remapped string is a character of the table. */
  lemma {:induction false} RemapInTable(s: string)
    ensures forall i :: 0 <= i < |Remap(LookupTable(), s)| ==> Remap(LookupTable(), s)[i] in UnlookupTable()
  {
    TablesAreInverse();
    if |s| > 0 {
      RemapInTable(s[1..]);
    }
  }

  // ---------------------------------------------------------------------------------------
  // Greedy longest prefix

  /** The inner loop of encodeString (main.ts:258-262) after the first n keys: a key that starts
      s replaces the best so far only when it is strictly longer. */
  function Longest(keys: seq<string>, s: string, n: nat): (best: string)
    requires n <= |keys|
    ensures best == "" || (StartsWith(s, best) && best in keys[..n])
  {
    if n == 0 then ""
    else
      var best := Longest(keys, s, n - 1);
      assert keys[..n - 1] <= keys[..n];
      if StartsWith(s, keys[n - 1]) && |keys[n - 1]| > |best| then keys[n - 1] else best
  }

  /** With distinct keys, the choice is the longest key that starts s, and among keys of that
      length the first one. */
  lemma {:induction false} LongestIsGreedy(keys: seq<string>, s: string, n: nat)
    requires n <= |keys| && forall i, j :: 0 <= i < j < |keys| ==> keys[i] != keys[j]
    ensures var best := Longest(keys, s, n);
      && (forall j :: 0 <= j < n && StartsWith(s, keys[j]) ==> |keys[j]| <= |best|)
      && (best != "" ==> forall j, l :: 0 <= j < l < n && keys[l] == best && StartsWith(s, keys[j]) ==> |keys[j]| < |best|)
  {
    if n > 0 {
      LongestIsGreedy(keys, s, n - 1);
      var prev := Longest(keys, s, n - 1);
      var best := Longest(keys, s, n);
      if best != prev {
        forall j, l | 0 <= j < l < n && keys[l] == best && StartsWith(s, keys[j])
          ensures |keys[j]| < |best|
        {
          assert l == n - 1;
        }
      } else if best != "" {
        forall j, l | 0 <= j < l < n && keys[l] == best && StartsWith(s, keys[j])
          ensures |keys[j]| < |best|
        {
          assert l < n - 1;
        }
      }
    }
  }

  /** The inner loop of encodeString (main.ts:257-262) over all keys, in their order. */
  method LongestPrefix(keys: seq<string>, s: string) returns (best: string)
    ensures best == Longest(keys, s, |keys|)
  {
    best := "";
    var i := 0;
    while i < |keys|
      invariant i <= |keys| && best == Longest(keys, s, i)
    {
      var token := keys[i];
      if StartsWith(s, token) && |token| > |best| {
        best := token;
      }
      i := i + 1;
    }
  }

  // ---------------------------------------------------------------------------------------
  // encodeString

  /** The keys the loop of encodeString (main.ts:256-265) emits for s: the longest key that
      starts s, then those for the rest after it. When no non-empty key starts what is left, the
      source pushes encoder[''] and loops forever without shrinking the string; that outcome is
      UnmatchedToken here. */
  function Tokenize(v: Vocabulary, s: string): (r: Result<seq<string>>)
    decreases |s|
    ensures r.Err? ==> r.error == UnmatchedToken
    ensures r.Ok? ==> |r.value| <= |s|
  {
    if |s| == 0 then Ok([])
    else
      var best := Longest(v.keys, s, |v.keys|);
      if best == "" then Err(UnmatchedToken)
      else
        Prepend([best], Tokenize(v, s[|best|..]))
  }

  function Prepend(pieces: seq<string>, r: Result<seq<string>>): Result<seq<string>>
  {
    match r
    case Ok(rest) => Ok(pieces + rest)
    case Err(e) => Err(e)
  }

  lemma PrependAll(p: seq<string>, q: seq<string>, r: Result<seq<string>>)
    ensures Prepend([], r) == r
    ensures Prepend(p, Prepend(q, r)) == Prepend(p + q, r)
  {
    if r.Ok? {
      assert [] + r.value == r.value;
      assert p + (q + r.value) == (p + q) + r.value;
    }
  }

  /** The token ids of the emitted keys. */
  function IdsOf(v: Vocabulary, pieces: seq<string>): (r: seq<nat>)
    requires forall i :: 0 <= i < |pieces| ==> pieces[i] in v.ids
    ensures |r| == |pieces| && forall i :: 0 <= i < |r| ==> r[i] == v.ids[pieces[i]]
  {
    seq(|pieces|, i requires 0 <= i < |pieces| => v.ids[pieces[i]])
  }

  /** The emitted keys are non-empty vocabulary keys, and they spell out s. */
  lemma {:induction false} TokenizeCovers(v: Vocabulary, s: string)
    requires Tokenize(v, s).Ok?
    ensures var pieces := Tokenize(v, s).value;
      && Concat(pieces) == s
      && forall i :: 0 <= i < |pieces| ==> pieces[i] != "" && pieces[i] in v.keys
    decreases |s|
  {
    if |s| > 0 {
      var best := Longest(v.keys, s, |v.keys|);
      var rest := s[|best|..];
      TokenizeCovers(v, rest);
      var pieces := Tokenize(v, s).value;
      assert pieces == [best] + Tokenize(v, rest).value;
      assert pieces[1..] == Tokenize(v, rest).value;
      assert s == best + rest;
    }
  }

  /** When every character of s is itself a key, tokenizing s succeeds. */
  lemma {:induction false} TokenizeSucceeds(v: Vocabulary, s: string)
    requires WellFormed(v)
    requires forall i :: 0 <= i < |s| ==> [s[i]] in v.ids
    ensures Tokenize(v, s).Ok?
    decreases |s|
  {
    if |s| > 0 {
      var n := |v.keys|;
      assert [s[0]] in v.keys;
      var m :| 0 <= m < n && v.keys[m] == [s[0]];
      assert StartsWith(s, v.keys[m]);
      LongestIsGreedy(v.keys, s, n);
      var best := Longest(v.keys, s, n);
      var rest := s[|best|..];
      assert forall i :: 0 <= i < |rest| ==> rest[i] == s[|best| + i];
      TokenizeSucceeds(v, rest);
    }
  }

  /** encodeString(str) (main.ts:244-268) over the vocabulary v. */
  function Encode(v: Vocabulary, s: string): (r: Result<seq<nat>>)
    requires WellFormed(v)
    ensures r.Err? ==> r.error == UnmatchedToken
    ensures r.Ok? ==> |r.value| <= |s|
  {
    var t := Tokenize(v, Remap(LookupTable(), s));
    if t.Err? then Err(t.error)
    else
      TokenizeCovers(v, Remap(LookupTable(), s));
      Ok(IdsOf(v, t.value))
  }

  /** With every table character a key, as in GPT-2's vocabulary, every string encodes. */
  lemma EncodeSucceeds(v: Vocabulary, s: string)
    requires WellFormed(v)
    requires forall b: nat :: b < 256 ==> [ByteChar(b)] in v.ids
    ensures Encode(v, s).Ok?
  {
    var t := Remap(LookupTable(), s);
    RemapInTable(s);
    TablesAreInverse();
    forall i | 0 <= i < |t|
      ensures [t[i]] in v.ids
    {
      var b := UnlookupTable()[t[i]];
      assert LookupTable()[b] == t[i];
    }
    TokenizeSucceeds(v, t);
  }

  /** encodeString(str) (main.ts:244-268): remap, then emit the id of the longest key that starts
      the rest and drop that key, until nothing is left. */
  method EncodeString(v: Vocabulary, input: string) returns (r: Result<seq<nat>>)
    requires WellFormed(v)
    ensures r == Encode(v, input)
  {
    var lookup, _ := BytesToUnicode();
    var str := Remap(lookup, input);
    ghost var whole := str;
    var tokens := v.keys;
    var out: seq<nat> := [];
    ghost var pieces: seq<string> := [];
    PrependAll([], [], Tokenize(v, whole));
    while |str| > 0
      invariant Tokenize(v, whole) == Prepend(pieces, Tokenize(v, str))
      invariant forall i :: 0 <= i < |pieces| ==> pieces[i] in v.ids
      invariant out == IdsOf(v, pieces)
      decreases |str|
    {
      var best := LongestPrefix(tokens, str);
      if best == "" {
        return Err(UnmatchedToken);
      }
      PrependAll(pieces, [best], Tokenize(v, str[|best|..]));
      out := out + [v.ids[best]];
      pieces := pieces + [best];
      str := str[|best|..];
    }
    assert Tokenize(v, str) == Ok([]) && pieces + [] == pieces;
    return Ok(out);
  }

  // ---------------------------------------------------------------------------------------
  // decodeTokens

  /** The decoder of decodeTokens (main.ts:279-282) after the first n keys: each key's id maps
      to the key, a later key overwriting an earlier one with the same id. */
  function DecoderOf(v: Vocabulary, n: nat): (decoder: map<nat, string>)
    requires n <= |v.keys| && forall i :: 0 <= i < n ==> v.keys[i] in v.ids
    ensures forall i :: 0 <= i < n ==> v.ids[v.keys[i]] in decoder
  {
    if n == 0 then map[]
    else DecoderOf(v, n - 1)[v.ids[v.keys[n - 1]] := v.keys[n - 1]]
  }

  /** The decoder maps each id it knows to a key seen so far whose id it is. */
  lemma {:induction false} DecoderSound(v: Vocabulary, n: nat)
    requires WellFormed(v) && n <= |v.keys|
    ensures forall t :: t in DecoderOf(v, n) ==> DecoderOf(v, n)[t] in v.keys[..n] && v.ids[DecoderOf(v, n)[t]] == t
  {
    if n > 0 {
      DecoderSound(v, n - 1);
      assert v.keys[..n] == v.keys[..n - 1] + [v.keys[n - 1]];
    }
  }

  /** With distinct ids, the decoder maps the id of every key seen so far back to the key. */
  lemma {:induction false} DecoderInverse(v: Vocabulary, n: nat)
    requires WellFormed(v) && Injective(v) && n <= |v.keys|
    ensures forall i :: 0 <= i < n ==> v.ids[v.keys[i]] in DecoderOf(v, n) && DecoderOf(v, n)[v.ids[v.keys[i]]] == v.keys[i]
  {
    if n > 0 {
      DecoderInverse(v, n - 1);
      forall i | 0 <= i < n - 1
        ensures DecoderOf(v, n)[v.ids[v.keys[i]]] == v.keys[i]
      {
        assert v.keys[i] != v.keys[n - 1];
      }
    }
  }

  /** tokens.map((token) => decoder[token]).join('') (main.ts:283): an unknown id looks up
      undefined, which join renders as nothing. */
  function Joined(decoder: map<nat, string>, tokens: seq<nat>): (r: string)
    ensures (forall i :: 0 <= i < |tokens| ==> tokens[i] !in decoder) ==> r == ""
  {
    if |tokens| == 0 then ""
    else (if tokens[0] in decoder then decoder[tokens[0]] else "") + Joined(decoder, tokens[1..])
  }

  /** decodeTokens(tokens) (main.ts:275-284) over the vocabulary v. */
  function Decode(v: Vocabulary, tokens: seq<nat>): (r: string)
    requires WellFormed(v)
    ensures forall i :: 0 <= i < |r| ==> r[i] as int < 256
  {
    DecodeString(Joined(DecoderOf(v, |v.keys|), tokens))
  }

  /** The decoder turns the ids of emitted keys back into the keys. */
  lemma {:induction false} JoinedIds(v: Vocabulary, pieces: seq<string>)
    requires WellFormed(v) && Injective(v)
    requires forall i :: 0 <= i < |pieces| ==> pieces[i] in v.keys
    ensures Joined(DecoderOf(v, |v.keys|), IdsOf(v, pieces)) == Concat(pieces)
  {
    if |pieces| > 0 {
      DecoderInverse(v, |v.keys|);
      assert pieces[0] in v.keys;
      var m :| 0 <= m < |v.keys| && v.keys[m] == pieces[0];
      JoinedIds(v, pieces[1..]);
      assert IdsOf(v, pieces)[1..] == IdsOf(v, pieces[1..]);
    }
  }

  /** decodeTokens(encodeString(s)) == s for every string with character codes below 256, when
      no two keys share an id. */
  lemma RoundTrip(v: Vocabulary, s: string)
    requires WellFormed(v) && Injective(v)
    requires forall i :: 0 <= i < |s| ==> s[i] as int < 256
    requires Encode(v, s).Ok?
    ensures Decode(v, Encode(v, s).value) == s
  {
    var t := Remap(LookupTable(), s);
    TokenizeCovers(v, t);
    var pieces := Tokenize(v, t).value;
    JoinedIds(v, pieces);
    DecodeRemap(s);
  }

  /** decodeTokens(tokens) (main.ts:275-284): build the decoder by walking the keys, then join
      the tokens' keys and decode the result. */
  method DecodeTokens(v: Vocabulary, tokens: seq<nat>) returns (s: string)
    requires WellFormed(v)
    ensures s == Decode(v, tokens)
  {
    var decoder: map<nat, string> := map[];
    var i := 0;
    while i < |v.keys|
      invariant i <= |v.keys| && decoder == DecoderOf(v, i)
    {
      var key := v.keys[i];
      decoder := decoder[v.ids[key] := key];
      i := i + 1;
    }
    s := DecodeString(Joined(decoder, tokens));
  }
}
