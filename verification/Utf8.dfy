/** UTF-8 as defined by section 3 and 4 of RFC 3629, the encoder of the JSON reader, and cutting at boundaries. */
module Utf8 {
  import opened Bytes

  /** A continuation byte: the two high bits are 10. */
  predicate IsTail(c: byte) { 0x80 <= c < 0xC0 }

  type CodePoint = c: int | 0 <= c <= 0x10FFFF

  predicate IsSurrogate(c: CodePoint) { 0xD800 <= c <= 0xDFFF }

  /** The length of the well-formed sequence at the front of `b`, or 0 if there is none. */
  function Lead(b: seq<byte>): (n: nat)
    ensures n <= 4 && n <= |b|
  {
    if |b| >= 1 && b[0] < 0x80 then 1
    else if |b| >= 2 && 0xC2 <= b[0] <= 0xDF && IsTail(b[1]) then 2
    else if |b| >= 3 && 0xE0 <= b[0] <= 0xEF && IsTail(b[1]) && IsTail(b[2])
            && (b[0] == 0xE0 ==> b[1] >= 0xA0) && (b[0] == 0xED ==> b[1] < 0xA0) then 3
    else if |b| >= 4 && 0xF0 <= b[0] <= 0xF4 && IsTail(b[1]) && IsTail(b[2]) && IsTail(b[3])
            && (b[0] == 0xF0 ==> b[1] >= 0x90) && (b[0] == 0xF4 ==> b[1] < 0x90) then 4
    else 0
  }

  predicate Valid(b: seq<byte>)
  {
    b == [] || (Lead(b) > 0 && Valid(b[Lead(b)..]))
  }

  /** The code point that a well-formed sequence stands for. */
  function Decode(b: seq<byte>): CodePoint
    requires Lead(b) > 0
  {
    var b0: int := b[0];
    if Lead(b) == 1 then b0
    else
      var b1: int := b[1] - 0x80;
      if Lead(b) == 2 then (b0 - 0xC0) * 0x40 + b1
      else
        var b2: int := b[2] - 0x80;
        if Lead(b) == 3 then (b0 - 0xE0) * 0x1000 + b1 * 0x40 + b2
        else
          var b3: int := b[3] - 0x80;
          (b0 - 0xF0) * 0x4_0000 + b1 * 0x1000 + b2 * 0x40 + b3
  }

  /** encode_utf8. */
  function Encode(c: CodePoint): (b: seq<byte>)
    ensures 1 <= |b| <= 4
    ensures c <= 0xFFFF ==> |b| <= 3
  {
    if c <= 0x7F then [c]
    else if c <= 0x7FF then [0xC0 + c / 0x40, 0x80 + c % 0x40]
    else if c <= 0xFFFF then [0xE0 + c / 0x1000, 0x80 + c / 0x40 % 0x40, 0x80 + c % 0x40]
    else [0xF0 + c / 0x4_0000, 0x80 + c / 0x1000 % 0x40, 0x80 + c / 0x40 % 0x40, 0x80 + c % 0x40]
  }

  /** The encoder writes the one well-formed sequence that decodes to the code point. */
  lemma EncodeDecodes(c: CodePoint)
    requires !IsSurrogate(c)
    ensures Lead(Encode(c)) == |Encode(c)|
    ensures Decode(Encode(c)) == c
  {
    assert c / 0x1000 == c / 0x40 / 0x40 && c / 0x4_0000 == c / 0x1000 / 0x40;
    if 0xD000 <= c < 0xE000 {
      assert c / 0x1000 == 0xD;
      assert c / 0x40 % 0x40 == c / 0x40 - 0x340;
    }
  }

  /** Every well-formed sequence is the encoding of the code point it decodes to, which is no surrogate. */
  lemma DecodeEncodes(b: seq<byte>)
    requires 0 < Lead(b) == |b|
    ensures !IsSurrogate(Decode(b)) && Encode(Decode(b)) == b
  {
    if |b| == 3 {
      EncodesThree(b);
    } else if |b| == 4 {
      EncodesFour(b);
    }
  }

  lemma EncodesThree(b: seq<byte>)
    requires |b| == 3 && Lead(b) == 3
    ensures !IsSurrogate(Decode(b)) && Encode(Decode(b)) == b
  {
    var high: int, b1: int, b2: int := b[0] - 0xE0, b[1] - 0x80, b[2] - 0x80;
    Digit(high, b1);
    Digit(high * 0x40 + b1, b2);
    Shifts(Decode(b));
  }

  lemma EncodesFour(b: seq<byte>)
    requires |b| == 4 && Lead(b) == 4
    ensures Decode(b) >= 0x1_0000 && Encode(Decode(b)) == b
  {
    var high: int, b1: int, b2: int, b3: int := b[0] - 0xF0, b[1] - 0x80, b[2] - 0x80, b[3] - 0x80;
    Digit(high, b1);
    Digit(high * 0x40 + b1, b2);
    Digit((high * 0x40 + b1) * 0x40 + b2, b3);
    Shifts(Decode(b));
  }

  lemma Digit(high: int, low: int)
    requires 0 <= low < 0x40
    ensures (high * 0x40 + low) / 0x40 == high && (high * 0x40 + low) % 0x40 == low
  {
  }

  lemma Shifts(c: CodePoint)
    ensures c / 0x1000 == c / 0x40 / 0x40 && c / 0x4_0000 == c / 0x40 / 0x40 / 0x40
  {
  }

  /** The encodings differ first in the byte at place `k`, where the one in front has the smaller byte. */
  predicate Before(a: seq<byte>, b: seq<byte>, k: nat)
  {
    k < |a| && k < |b| && a[..k] == b[..k] && a[k] < b[k]
  }

  /** Section 1 of RFC 3629: encodings are ordered as the code points are. Together with EncodeDecodes and DecodeEncodes
      this leaves only one encoding. */
  lemma EncodeOrdered(c: CodePoint, d: CodePoint) returns (k: nat)
    requires c < d
    ensures Before(Encode(c), Encode(d), k)
  {
    var n := |Encode(c)|;
    if n == |Encode(d)| == 3 {
      k := OrderedThree(c, d);
    } else if n == |Encode(d)| == 4 {
      k := OrderedFour(c, d);
    } else {
      k := if n == |Encode(d)| == 2 && c / 0x40 == d / 0x40 then 1 else 0;
    }
  }

  lemma OrderedThree(c: CodePoint, d: CodePoint) returns (k: nat)
    requires 0x800 <= c < d <= 0xFFFF
    ensures Before(Encode(c), Encode(d), k)
  {
    Shifts(c);
    Shifts(d);
    k := if c / 0x40 == d / 0x40 then 2 else if c / 0x1000 == d / 0x1000 then 1 else 0;
  }

  lemma OrderedFour(c: CodePoint, d: CodePoint) returns (k: nat)
    requires 0x1_0000 <= c < d
    ensures Before(Encode(c), Encode(d), k)
  {
    Shifts(c);
    Shifts(d);
    k := if c / 0x40 == d / 0x40 then 3 else if c / 0x1000 == d / 0x1000 then 2
         else if c / 0x4_0000 == d / 0x4_0000 then 1 else 0;
  }

  lemma ValidUnfold(b: seq<byte>)
    ensures Valid(b) <==> b == [] || (Lead(b) > 0 && Valid(b[Lead(b)..]))
  {
  }

  lemma {:induction false} ValidAppend(a: seq<byte>, b: seq<byte>)
    requires Valid(a)
    ensures Valid(a + b) <==> Valid(b)
  {
    hide Valid, Lead;
    ValidUnfold(a);
    if a == [] {
      assert a + b == b;
    } else {
      var n := Lead(a);
      ValidAppend(a[n..], b);
      LeadExtends(a, b);
      ValidUnfold(a + b);
      assert (a + b)[n..] == a[n..] + b;
    }
  }

  lemma LeadExtends(a: seq<byte>, b: seq<byte>)
    requires Lead(a) > 0
    ensures Lead(a + b) == Lead(a)
  {
    var n := Lead(a);
    assert forall k | 0 <= k < n :: (a + b)[k] == a[k];
  }

  lemma EncodeValid(c: CodePoint)
    requires !IsSurrogate(c)
    ensures Valid(Encode(c))
  {
    EncodeDecodes(c);
    assert Encode(c)[|Encode(c)|..] == [];
  }

  /** In valid text, a prefix is valid exactly when it does not end in front of a continuation byte. */
  lemma {:induction false} ValidPrefix(b: seq<byte>, m: nat)
    requires Valid(b) && m <= |b|
    ensures Valid(b[..m]) <==> (m == |b| || !IsTail(b[m]))
    decreases |b|
  {
    if m == |b| {
      assert b[..m] == b;
    } else if m > 0 {
      var n := Lead(b);
      if m < n {
        assert Lead(b[..m]) == 0;
      } else {
        assert b == b[..n] + b[n..];
        LeadSlice(b);
        assert b[..m] == b[..n] + b[n..][..m - n];
        ValidAppend(b[..n], b[n..][..m - n]);
        ValidPrefix(b[n..], m - n);
      }
    }
  }

  lemma LeadSlice(b: seq<byte>)
    requires Lead(b) > 0
    ensures Valid(b[..Lead(b)])
  {
    var n := Lead(b);
    assert b[..n] + b[n..] == b;
    assert forall k | 0 <= k < n :: b[..n][k] == b[k];
    assert Lead(b[..n]) == n;
    assert b[..n][n..] == [];
  }

  /** Text as the C code sees it: past the end stands the terminator. */
  function CharAt(text: seq<byte>, i: nat): byte
  {
    if i < |text| then text[i] else 0
  }

  /** The loop that steps back from a cut position while it splits a character. */
  function StepBack(text: seq<byte>, n: nat): (r: nat)
    ensures r <= n
    ensures r == 0 || !IsTail(CharAt(text, r))
  {
    if n > 0 && IsTail(CharAt(text, n)) then StepBack(text, n - 1) else n
  }

  lemma {:induction false} StepBackOverTails(text: seq<byte>, n: nat)
    ensures forall k | StepBack(text, n) < k <= n :: IsTail(CharAt(text, k))
  {
    if n > 0 && IsTail(CharAt(text, n)) {
      StepBackOverTails(text, n - 1);
    }
  }

  /** Cutting valid text gives its longest valid prefix of at most `n` bytes. */
  lemma StepBackLongest(text: seq<byte>, n: nat)
    requires Valid(text) && n <= |text|
    ensures Valid(text[..StepBack(text, n)])
    ensures forall k | StepBack(text, n) < k <= n :: !Valid(text[..k])
  {
    var r := StepBack(text, n);
    StepBackOverTails(text, n);
    ValidPrefix(text, r);
    if r == 0 {
      assert text[..0] == [];
    }
    forall k | r < k <= n
      ensures !Valid(text[..k])
    {
      ValidPrefix(text, k);
      assert IsTail(CharAt(text, k));
    }
  }

  /** The same loop as a method, over the position it moves. */
  method StepBackLoop(text: seq<byte>, start: nat) returns (n: nat)
    ensures n == StepBack(text, start)
  {
    n := start;
    while n > 0 && IsTail(CharAt(text, n))
      invariant n <= start && StepBack(text, n) == StepBack(text, start)
    {
      n := n - 1;
    }
  }
}
