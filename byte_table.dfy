/** GPT-2's byte-to-character table (bytesToUnicode, main.ts:219-242). Every byte value gets a
    printable character: the printable bytes keep their own code point, and the 68 others are
    given the code points 256, 257, ... in ascending byte order. */
module ByteTable {

  /** The bytes that keep their own code point: '!'..'~', '¡'..'¬' and '®'..'ÿ'. */
  predicate Printable(b: int)
  {
    33 <= b <= 126 || 161 <= b <= 172 || 174 <= b <= 255
  }

  /** lo, lo + 1, ..., hi - 1. */
  function Range(lo: nat, hi: nat): (r: seq<nat>)
    requires lo <= hi
    ensures |r| == hi - lo && forall k :: 0 <= k < |r| ==> r[k] == lo + k
  {
    seq(hi - lo, k requires 0 <= k < hi - lo => lo + k)
  }

  /** The initial bs of bytesToUnicode (main.ts:220-224): the printable bytes, ascending. */
  function PrintableBytes(): seq<nat>
  {
    Range(33, 127) + Range(161, 173) + Range(174, 256)
  }

  /** The bytes below b that are not printable, ascending: what the loop of bytesToUnicode has
      pushed onto bs before it visits b. */
  function ShiftedBelow(b: nat): seq<nat>
  {
    if b == 0 then []
    else ShiftedBelow(b - 1) + (if Printable(b - 1) then [] else [b - 1])
  }

  /** The code point bytesToUnicode gives byte b. */
  function ByteCode(b: nat): nat
  {
    if Printable(b) then b else 256 + |ShiftedBelow(b)|
  }

  /** The character bytesToUnicode gives byte b (String.fromCharCode of its code point). */
  function ByteChar(b: nat): char
    requires b < 256
  {
    ShiftedCount(b);
    ByteCode(b) as char
  }

  /** lookupTable: every byte value to its character. */
  function LookupTable(): map<nat, char>
  {
    map b: nat | b < 256 :: ByteChar(b)
  }

  /** unlookupTable: every character of the table back to its byte. */
  function UnlookupTable(): map<char, nat>
  {
    ByteCharInjective();
    map b: nat | b < 256 :: ByteChar(b) := b
  }

  // ---------------------------------------------------------------------------------------
  // The shape of the table

  /** The number of non-printable bytes below b, in closed form. */
  lemma {:induction false} ShiftedCount(b: nat)
    requires b <= 256
    ensures |ShiftedBelow(b)| ==
      if b <= 33 then b
      else if b <= 127 then 33
      else if b <= 161 then b - 94
      else if b <= 173 then 67
      else 68
  {
    if b > 0 {
      ShiftedCount(b - 1);
      assert |ShiftedBelow(b)| == |ShiftedBelow(b - 1)| + if Printable(b - 1) then 0 else 1;
    }
  }

  /** The code points in closed form: bytes 0-32 go to 256-288, bytes 127-160 to 289-322, byte
      173 to 323, and the printable bytes stay where they are. */
  lemma ByteCodeFormula(b: nat)
    requires b < 256
    ensures ByteCode(b) ==
      if b <= 32 then 256 + b
      else if b <= 126 then b
      else if b <= 160 then b + 162
      else if b == 173 then 323
      else b
  {
    ShiftedCount(b);
  }

  /** Printable bytes map to their own code point; the others to 256 and up, in the order of
      the bytes: the 68 non-printable bytes, ascending, get the code points 256 to 323 in turn. */
  lemma ShiftedCodes()
    ensures forall b: nat :: b < 256 && Printable(b) ==> ByteCode(b) == b
    ensures forall b: nat :: b < 256 && !Printable(b) ==> 256 <= ByteCode(b) < 324
    ensures forall b: nat, d: nat :: b < d < 256 && !Printable(b) && !Printable(d) ==> ByteCode(b) < ByteCode(d)
    ensures |ShiftedBelow(256)| == 68
    ensures forall k :: 0 <= k < 68 ==> ByteCode(ShiftedBelow(256)[k]) == 256 + k
  {
    forall b: nat | b < 256
      ensures Printable(b) ==> ByteCode(b) == b
      ensures !Printable(b) ==> 256 <= ByteCode(b) < 324
    {
      ByteCodeFormula(b);
    }
    forall b: nat, d: nat | b < d < 256 && !Printable(b) && !Printable(d)
      ensures ByteCode(b) < ByteCode(d)
    {
      ByteCodeFormula(b);
      ByteCodeFormula(d);
    }
    ShiftedCount(256);
    ShiftedBelowMembers(256);
    forall k | 0 <= k < 68
      ensures ByteCode(ShiftedBelow(256)[k]) == 256 + k
    {
      assert ShiftedBelow(256)[k] in ShiftedBelow(256);
      ShiftedIndex(256, k);
    }
  }

  /** Different bytes get different characters. */
  lemma ByteCharInjective()
    ensures forall b: nat, d: nat :: b < 256 && d < 256 && ByteChar(b) == ByteChar(d) ==> b == d
  {
    forall b: nat, d: nat | b < 256 && d < 256 && ByteChar(b) == ByteChar(d)
      ensures b == d
    {
      ByteCodeFormula(b);
      ByteCodeFormula(d);
    }
  }

  /** The tables cover every byte, and unlookupTable is the exact inverse of lookupTable. */
  lemma TablesAreInverse()
    ensures forall b :: b in LookupTable() <==> 0 <= b < 256
    ensures UnlookupTable().Keys == LookupTable().Values
    ensures forall b :: b in LookupTable() ==> UnlookupTable()[LookupTable()[b]] == b
    ensures forall c :: c in UnlookupTable() ==> LookupTable()[UnlookupTable()[c]] == c
  {
    var lookup, unlookup := LookupTable(), UnlookupTable();
    ByteCharInjective();
    forall b | b in lookup
      ensures unlookup[lookup[b]] == b
    {
      assert ByteChar(b) in unlookup;
    }
    forall c | c in unlookup
      ensures c in lookup.Values
    {
      var b: nat :| b < 256 && ByteChar(b) == c;
      assert lookup[b] == c;
    }
    forall c | c in lookup.Values
      ensures c in unlookup
    {
      var b :| b in lookup && lookup[b] == c;
    }
  }

  // ---------------------------------------------------------------------------------------
  // The construction of bs and cs

  lemma PrintableBytesArePrintable()
    ensures forall b :: b in PrintableBytes() <==> 0 <= b < 256 && Printable(b)
  {
    var bs := PrintableBytes();
    forall b | 0 <= b < 256 && Printable(b)
      ensures b in bs
    {
      if b <= 126 {
        assert bs[b - 33] == b;
      } else if b <= 172 {
        assert bs[94 + b - 161] == b;
      } else {
        assert bs[106 + b - 174] == b;
      }
    }
  }

  /** ShiftedBelow(b) holds exactly the non-printable bytes below b. */
  lemma {:induction false} ShiftedBelowMembers(b: nat)
    ensures forall x :: x in ShiftedBelow(b) <==> 0 <= x < b && !Printable(x)
  {
    if b > 0 {
      ShiftedBelowMembers(b - 1);
    }
  }

  /** The byte at position k of ShiftedBelow(b) has k non-printable bytes below it. */
  lemma {:induction false} ShiftedIndex(b: nat, k: nat)
    requires k < |ShiftedBelow(b)|
    ensures |ShiftedBelow(ShiftedBelow(b)[k])| == k
  {
    var prev := ShiftedBelow(b - 1);
    if k < |prev| {
      assert ShiftedBelow(b)[k] == prev[k];
      ShiftedIndex(b - 1, k);
    } else {
      assert ShiftedBelow(b)[k] == b - 1;
    }
  }

  /** bytesToUnicode() (main.ts:219-242): bs starts as the printable bytes and the loop over all
      256 byte values pushes each byte bs does not include yet, with code point 256 + n; the
      two tables are then filled pair by pair. */
  method BytesToUnicode() returns (lookup: map<nat, char>, unlookup: map<char, nat>)
    ensures lookup == LookupTable() && unlookup == UnlookupTable()
  {
    var bs, cs := PairBytes();
    var csStr := seq(|cs|, k requires 0 <= k < |cs| => cs[k] as char);
    lookup, unlookup := FillTables(bs, csStr);
  }

  /** The loop of bytesToUnicode (main.ts:226-233) over all 256 byte values. */
  method PairBytes() returns (bs: seq<nat>, cs: seq<nat>)
    ensures |bs| == |cs| == 256
    ensures forall k :: 0 <= k < 256 ==> bs[k] < 256 && cs[k] == ByteCode(bs[k]) < 324
    ensures forall x :: x in bs <==> 0 <= x < 256
  {
    bs := PrintableBytes();
    cs := bs;
    var n := 0;
    PrintableBytesArePrintable();
    var b := 0;
    while b < 256
      invariant b <= 256 && n == |ShiftedBelow(b)|
      invariant bs == PrintableBytes() + ShiftedBelow(b)
      invariant |cs| == |bs| && forall k :: 0 <= k < |cs| ==> cs[k] == ByteCode(bs[k])
    {
      bs, cs, n := PushShifted(bs, cs, n, b);
      b := b + 1;
    }
    PairedAll(bs, cs);
  }

  /** One pass of that loop: byte b is pushed, with code point 256 + n, when bs does not
      include it, which is when it is not printable. */
  method PushShifted(bs: seq<nat>, cs: seq<nat>, n: nat, b: nat) returns (bs': seq<nat>, cs': seq<nat>, n': nat)
    requires b < 256 && n == |ShiftedBelow(b)| && bs == PrintableBytes() + ShiftedBelow(b)
    requires |cs| == |bs| && forall k :: 0 <= k < |cs| ==> cs[k] == ByteCode(bs[k])
    ensures n' == |ShiftedBelow(b + 1)| && bs' == PrintableBytes() + ShiftedBelow(b + 1)
    ensures |cs'| == |bs'| && forall k :: 0 <= k < |cs'| ==> cs'[k] == ByteCode(bs'[k])
  {
    IncludedIffPrintable(b);
    bs', cs', n' := bs, cs, n;
    if b !in bs {
      bs' := bs + [b];
      cs' := cs + [256 + n];
      n' := n + 1;
      assert ShiftedBelow(b + 1) == ShiftedBelow(b) + [b];
    }
  }

  /** When the loop visits b, bs includes b exactly when b is printable. */
  lemma IncludedIffPrintable(b: nat)
    requires b < 256
    ensures b in PrintableBytes() + ShiftedBelow(b) <==> Printable(b)
  {
    PrintableBytesArePrintable();
    ShiftedBelowMembers(b);
  }

  /** After all 256 passes, bs holds every byte once and cs their code points. */
  lemma PairedAll(bs: seq<nat>, cs: seq<nat>)
    requires bs == PrintableBytes() + ShiftedBelow(256)
    requires |cs| == |bs| && forall k :: 0 <= k < |cs| ==> cs[k] == ByteCode(bs[k])
    ensures |bs| == |cs| == 256
    ensures forall k :: 0 <= k < 256 ==> bs[k] < 256 && cs[k] == ByteCode(bs[k]) < 324
    ensures forall x :: x in bs <==> 0 <= x < 256
  {
    PrintableBytesArePrintable();
    ShiftedBelowMembers(256);
    ShiftedCount(256);
    forall k | 0 <= k < 256
      ensures bs[k] < 256 && cs[k] < 324
    {
      assert bs[k] in bs;
      ByteCodeFormula(bs[k]);
    }
  }

  /** The forEach of bytesToUnicode (main.ts:236-239): pair k puts bs[k] to csStr[k] in
      lookupTable and csStr[k] to bs[k] in unlookupTable. */
  method FillTables(bs: seq<nat>, csStr: seq<char>) returns (lookup: map<nat, char>, unlookup: map<char, nat>)
    requires |bs| == |csStr| == 256
    requires forall k :: 0 <= k < 256 ==> bs[k] < 256 && csStr[k] == ByteChar(bs[k])
    requires forall x :: x in bs <==> 0 <= x < 256
    ensures lookup == LookupTable() && unlookup == UnlookupTable()
  {
    lookup, unlookup := map[], map[];
    var k := 0;
    while k < |bs|
      invariant k <= |bs|
      invariant forall x :: x in lookup <==> x in bs[..k]
      invariant forall c :: c in unlookup <==> c in csStr[..k]
      invariant forall x :: x in lookup ==> x < 256 && lookup[x] == ByteChar(x)
      invariant forall c :: c in unlookup ==> unlookup[c] < 256 && ByteChar(unlookup[c]) == c
    {
      assert bs[..k + 1] == bs[..k] + [bs[k]] && csStr[..k + 1] == csStr[..k] + [csStr[k]];
      lookup := lookup[bs[k] := csStr[k]];
      unlookup := unlookup[csStr[k] := bs[k]];
      k := k + 1;
    }
    assert bs[..256] == bs && csStr[..256] == csStr;
    LookupMatches(bs, lookup);
    UnlookupMatches(bs, csStr, unlookup);
  }

  /** A table filled from all 256 pairs of bs and csStr is lookupTable. */
  lemma LookupMatches(bs: seq<nat>, lookup: map<nat, char>)
    requires forall x :: x in bs <==> 0 <= x < 256
    requires forall x :: x in lookup <==> x in bs
    requires forall x :: x in lookup ==> x < 256 && lookup[x] == ByteChar(x)
    ensures lookup == LookupTable()
  {
    var L := LookupTable();
    assert forall x :: x in lookup <==> x in L;
    assert lookup == L;
  }

  /** A table filled from all 256 pairs of csStr and bs is unlookupTable. */
  lemma UnlookupMatches(bs: seq<nat>, csStr: seq<char>, unlookup: map<char, nat>)
    requires |bs| == |csStr| == 256
    requires forall k :: 0 <= k < 256 ==> bs[k] < 256 && csStr[k] == ByteChar(bs[k])
    requires forall x :: x in bs <==> 0 <= x < 256
    requires forall c :: c in unlookup <==> c in csStr
    requires forall c :: c in unlookup ==> unlookup[c] < 256 && ByteChar(unlookup[c]) == c
    ensures unlookup == UnlookupTable()
  {
    var U := UnlookupTable();
    ByteCharInjective();
    forall c
      ensures c in unlookup <==> c in U
    {
      if c in U {
        var x: nat :| x < 256 && ByteChar(x) == c;
        assert x in bs;
        var j :| 0 <= j < 256 && bs[j] == x;
        assert csStr[j] == c;
      }
    }
    forall c | c in unlookup
      ensures unlookup[c] == U[c]
    {
      assert ByteChar(unlookup[c]) in U;
    }
    assert unlookup == U;
  }
}
