/** Splitting byte strings at a separator: the reference for path validation, path walking and cache keys. */
module Paths {
  import opened Bytes

  const SEPARATOR: byte := 0x2F
  const DOT: byte := 0x2E

  /** The pieces between separators; always at least one. */
  function Split(s: seq<byte>, sep: byte): (r: seq<seq<byte>>)
    ensures |r| >= 1
  {
    if s == [] then [[]]
    else
      var rest := Split(s[1..], sep);
      if s[0] == sep then [[]] + rest else [[s[0]] + rest[0]] + rest[1..]
  }

  function Join(parts: seq<seq<byte>>, sep: byte): seq<byte>
    requires |parts| >= 1
  {
    if |parts| == 1 then parts[0] else parts[0] + [sep] + Join(parts[1..], sep)
  }

  predicate Free(s: seq<byte>, sep: byte) { forall k | 0 <= k < |s| :: s[k] != sep }

  lemma {:induction false} SplitFree(s: seq<byte>, sep: byte)
    requires Free(s, sep)
    ensures Split(s, sep) == [s]
  {
    if s != [] {
      SplitFree(s[1..], sep);
      assert [s[0]] + s[1..] == s;
    }
  }

  /** Splitting a piece, a separator and the rest takes the piece off. */
  lemma {:induction false} SplitFirst(a: seq<byte>, b: seq<byte>, sep: byte)
    requires Free(a, sep)
    ensures Split(a + [sep] + b, sep) == [a] + Split(b, sep)
  {
    var s := a + [sep] + b;
    if a == [] {
      assert s[1..] == b;
    } else {
      SplitFirst(a[1..], b, sep);
      assert s[1..] == a[1..] + [sep] + b;
      var rest := [a[1..]] + Split(b, sep);
      assert rest[1..] == Split(b, sep);
      assert [s[0]] + a[1..] == a;
    }
  }

  /** Joining pieces without separators and splitting again gives the pieces back. */
  lemma {:induction false} SplitJoin(parts: seq<seq<byte>>, sep: byte)
    requires |parts| >= 1 && forall k | 0 <= k < |parts| :: Free(parts[k], sep)
    ensures Split(Join(parts, sep), sep) == parts
  {
    if |parts| == 1 {
      SplitFree(parts[0], sep);
    } else {
      SplitJoin(parts[1..], sep);
      SplitFirst(parts[0], Join(parts[1..], sep), sep);
      assert parts == [parts[0]] + parts[1..];
    }
  }

  /** Splitting gives pieces without separators, and joining those gives the text back. */
  lemma {:induction false} JoinSplit(s: seq<byte>, sep: byte)
    ensures Join(Split(s, sep), sep) == s
    ensures forall k | 0 <= k < |Split(s, sep)| :: Free(Split(s, sep)[k], sep)
  {
    if s != [] {
      JoinSplit(s[1..], sep);
      var rest, all := Split(s[1..], sep), Split(s, sep);
      assert s == [s[0]] + s[1..];
      if s[0] == sep {
        assert all[1..] == rest && [] + [sep] == [sep];
        assert forall k | 1 <= k < |all| :: all[k] == rest[k - 1];
      } else {
        assert all[1..] == rest[1..];
        assert forall k | 1 <= k < |all| :: all[k] == rest[k];
        if |rest| > 1 {
          assert ([s[0]] + rest[0]) + [sep] + Join(rest[1..], sep) == [s[0]] + (rest[0] + [sep] + Join(rest[1..], sep));
        }
      }
    }
  }
}
