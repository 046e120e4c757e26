/** Paths of the rooted filesystem: validation, the walk through their components, and the parent/leaf split. */
module FsPath {
  import opened Bytes
  import opened Paths

  const FS_PATH_MAX: nat := 240

  /** A name that stands for a child of the directory it is opened in. */
  predicate GoodName(c: seq<byte>)
  {
    c != [] && c != [DOT] && c != [DOT, DOT] && Free(c, SEPARATOR) && Free(c, 0)
  }

  predicate AllGood(cs: seq<seq<byte>>) { forall k | 0 <= k < |cs| :: GoodName(cs[k]) }

  /** The directory entries a path names, from the root down. The empty path names the root. */
  function Components(path: seq<byte>): seq<seq<byte>>
  {
    if path == [] then [] else Split(path, SEPARATOR)
  }

  /** The paths the protocol admits. */
  predicate Admitted(path: seq<byte>, allowEmpty: bool)
  {
    if path == [] then allowEmpty else |path| <= FS_PATH_MAX && AllGood(Split(path, SEPARATOR))
  }

  /** A component, byte by byte. */
  predicate IsComponent(c: seq<byte>)
  {
    c != [] && c != Ascii(".") && c != Ascii("..") && 0x2F !in c && 0x00 !in c
  }

  /** Admitted are exactly the joins of components with slashes, up to 240 bytes: no empty component, so no leading,
      trailing or doubled slash, no dots, no NUL. The empty path is admitted where the request allows it. */
  lemma AdmittedExactly(path: seq<byte>, allowEmpty: bool)
    ensures Admitted(path, allowEmpty)
            <==> || (path == [] && allowEmpty)
                 || (1 <= |path| <= 240
                     && exists cs: seq<seq<byte>> ::
                          |cs| >= 1 && path == Join(cs, 0x2F) && forall k | 0 <= k < |cs| :: IsComponent(cs[k]))
  {
    hide Split, Join, GoodName, IsComponent;
    JoinSplit(path, SEPARATOR);
    if path != [] {
      forall c
        ensures GoodName(c) <==> IsComponent(c)
      {
        NameExactly(c);
      }
      if cs: seq<seq<byte>> :| |cs| >= 1 && path == Join(cs, 0x2F) && forall k | 0 <= k < |cs| :: IsComponent(cs[k]) {
        forall k | 0 <= k < |cs|
          ensures Free(cs[k], SEPARATOR)
        {
          NameExactly(cs[k]);
          NameFree(cs[k]);
        }
        SplitJoin(cs, SEPARATOR);
      }
    }
  }

  lemma NameExactly(c: seq<byte>)
    ensures GoodName(c) <==> IsComponent(c)
  {
    assert Ascii(".") == [DOT] && Ascii("..") == [DOT, DOT];
  }

  lemma NameFree(c: seq<byte>)
    requires GoodName(c)
    ensures Free(c, SEPARATOR)
  {
  }

  lemma {:induction false} SplitParts(s: seq<byte>, sep: byte)
    ensures forall k | 0 <= k < |Split(s, sep)| :: Free(Split(s, sep)[k], sep)
    ensures s != [] && s[|s| - 1] == sep ==> Split(s, sep)[|Split(s, sep)| - 1] == []
  {
    if s != [] {
      SplitParts(s[1..], sep);
      var rest, all := Split(s[1..], sep), Split(s, sep);
      assert forall k | 1 <= k < |rest| :: rest[k] == (if s[0] == sep then all[k + 1] else all[k]);
      if s[0] == sep {
        assert all[1] == rest[0];
      }
      if |s| == 1 && s[0] == sep {
        assert s[1..] == [];
      }
    }
  }

  /** path_is_valid: accepts exactly the admitted paths and leaves a terminated copy. */
  method PathIsValid(input: seq<byte>, allowEmpty: bool, path: array<byte>) returns (ok: bool)
    requires path.Length == FS_PATH_MAX + 1
    modifies path
    ensures ok <==> Admitted(input, allowEmpty)
    ensures ok ==> |input| <= FS_PATH_MAX && path[..|input|] == input && path[|input|] == 0
  {
    hide Split, GoodName, AllGood, Free;
    var size := |input|;
    if size == 0 && allowEmpty {
      path[0] := 0;
      return true;
    }
    if size == 0 || size > FS_PATH_MAX || input[0] == SEPARATOR || input[size - 1] == SEPARATOR {
      if 0 < size <= FS_PATH_MAX {
        EdgeSeparator(input);
      }
      return false;
    }
    var index, start := 0, 0;
    assert input[0..] == input;
    FreeStart(input, 0);
    while index <= size
      invariant 0 <= start <= index <= size + 1 && (start <= size || index == size + 1)
      invariant Scanned(input, start, index)
      invariant forall k | 0 <= k < index && k < size :: path[k] == input[k]
    {
      if index < size && input[index] != SEPARATOR {
        if input[index] == 0 {
          NulRejected(input[start..], index - start);
          return false;
        }
        path[index] := input[index];
        FreeGrows(input, start, index);
        index := index + 1;
        continue;
      }
      var bad := BadComponent(input, start, index);
      if bad {
        return false;
      }
      if index < size {
        path[index] := SEPARATOR;
        FreeStart(input, index + 1);
      }
      start := index + 1;
      index := index + 1;
    }
    path[size] := 0;
    assert path[..size] == input;
    return true;
  }

  /** The component under way is clean so far and everything before it is good. */
  ghost predicate Scanned(input: seq<byte>, start: nat, index: nat)
  {
    if index > |input| then AllGood(Split(input, SEPARATOR))
    else
      && start <= index && Free(input[start..index], SEPARATOR) && Free(input[start..index], 0)
      && AllGood(Split(input[start..], SEPARATOR)) == AllGood(Split(input, SEPARATOR))
  }

  /** The checks at the end of a component, and what they say about the rest of the path. */
  method BadComponent(input: seq<byte>, start: nat, index: nat) returns (bad: bool)
    requires start <= index <= |input| && (index < |input| ==> input[index] == SEPARATOR)
    requires Free(input[start..index], SEPARATOR) && Free(input[start..index], 0)
    ensures bad ==> !AllGood(Split(input[start..], SEPARATOR))
    ensures !bad && index == |input| ==> AllGood(Split(input[start..], SEPARATOR))
    ensures !bad && index < |input| ==>
              AllGood(Split(input[start..], SEPARATOR)) == AllGood(Split(input[index + 1..], SEPARATOR))
  {
    hide Split, GoodName, AllGood;
    ghost var component := input[start..index];
    NameRule(component);
    if index == |input| {
      assert input[start..] == component;
      LastName(component);
    } else {
      assert input[start..] == component + [SEPARATOR] + input[index + 1..];
      FirstName(component, input[index + 1..]);
    }
    bad := index == start
           || (index - start == 1 && input[start] == DOT)
           || (index - start == 2 && input[start] == DOT && input[start + 1] == DOT);
  }

  lemma FreeStart(s: seq<byte>, i: nat)
    requires i <= |s|
    ensures Free(s[i..i], SEPARATOR) && Free(s[i..i], 0)
  {
  }

  lemma FreeGrows(s: seq<byte>, i: nat, j: nat)
    requires i <= j < |s| && s[j] != SEPARATOR && s[j] != 0 && Free(s[i..j], SEPARATOR) && Free(s[i..j], 0)
    ensures Free(s[i..j + 1], SEPARATOR) && Free(s[i..j + 1], 0)
  {
    assert s[i..j + 1] == s[i..j] + [s[j]];
  }

  /** What the three checks at the end of a component decide. */
  lemma NameRule(c: seq<byte>)
    requires Free(c, SEPARATOR) && Free(c, 0)
    ensures GoodName(c) <==> !(|c| == 0 || (|c| == 1 && c[0] == DOT) || (|c| == 2 && c[0] == DOT && c[1] == DOT))
  {
  }

  lemma LastName(c: seq<byte>)
    requires Free(c, SEPARATOR)
    ensures Split(c, SEPARATOR) == [c] && (AllGood(Split(c, SEPARATOR)) <==> GoodName(c))
  {
    SplitFree(c, SEPARATOR);
    assert [c][0] == c;
  }

  lemma FirstName(c: seq<byte>, rest: seq<byte>)
    requires Free(c, SEPARATOR)
    ensures Split(c + [SEPARATOR] + rest, SEPARATOR) == [c] + Split(rest, SEPARATOR)
    ensures AllGood(Split(c + [SEPARATOR] + rest, SEPARATOR)) <==> GoodName(c) && AllGood(Split(rest, SEPARATOR))
  {
    SplitFirst(c, rest, SEPARATOR);
    GoodCons(c, Split(rest, SEPARATOR));
  }

  lemma GoodCons(c: seq<byte>, cs: seq<seq<byte>>)
    ensures AllGood([c] + cs) <==> GoodName(c) && AllGood(cs)
  {
    if AllGood([c] + cs) {
      assert ([c] + cs)[0] == c;
      assert forall k | 0 <= k < |cs| :: cs[k] == ([c] + cs)[k + 1];
    }
  }

  lemma EdgeSeparator(s: seq<byte>)
    requires s != [] && (s[0] == SEPARATOR || s[|s| - 1] == SEPARATOR)
    ensures !AllGood(Split(s, SEPARATOR))
  {
    SplitParts(s, SEPARATOR);
    var r := Split(s, SEPARATOR);
    assert !GoodName([]);
    if s[0] == SEPARATOR {
      assert r[0] == [];
    } else {
      assert r[|r| - 1] == [];
    }
  }

  /** A NUL byte spoils the component it stands in. */
  lemma {:induction false} NulRejected(s: seq<byte>, i: nat)
    requires i < |s| && s[i] == 0
    ensures !AllGood(Split(s, SEPARATOR))
  {
    var k := NulPart(s, i);
    assert !GoodName(Split(s, SEPARATOR)[k]);
  }

  lemma {:induction false} NulPart(s: seq<byte>, i: nat) returns (k: nat)
    requires i < |s| && s[i] == 0
    ensures k < |Split(s, SEPARATOR)| && 0 in Split(s, SEPARATOR)[k]
  {
    var rest := Split(s[1..], SEPARATOR);
    if i == 0 {
      k := 0;
      assert Split(s, SEPARATOR)[0] == [0] + rest[0];
    } else {
      var j := NulPart(s[1..], i - 1);
      k := if s[0] == SEPARATOR then j + 1 else j;
    }
  }

  // ----- the walk ------------------------------------------------------------------------------------------------

  /** The end of the token that starts at `i`. */
  function TokenEnd(s: seq<byte>, i: nat): (r: nat)
    requires i <= |s|
    ensures i <= r <= |s| && Free(s[i..r], SEPARATOR) && (r < |s| ==> s[r] == SEPARATOR)
    decreases |s| - i
  {
    if i < |s| && s[i] != SEPARATOR then
      var r := TokenEnd(s, i + 1);
      assert s[i..r] == [s[i]] + s[i + 1..r];
      r
    else i
  }

  function SkipSeparators(s: seq<byte>, i: nat): (r: nat)
    requires i <= |s|
    ensures i <= r <= |s| && (r < |s| ==> s[r] != SEPARATOR)
    decreases |s| - i
  {
    if i < |s| && s[i] == SEPARATOR then SkipSeparators(s, i + 1) else i
  }

  /** All tokens that repeated strtok_r calls return from position `i` on: runs without separators. */
  function Tokens(s: seq<byte>, i: nat): seq<seq<byte>>
    requires i <= |s|
    decreases |s| - i
  {
    var start := SkipSeparators(s, i);
    if start == |s| then []
    else
      var end := TokenEnd(s, start);
      [s[start..end]] + (if end < |s| then Tokens(s, end + 1) else [])
  }

  lemma TokensHere(s: seq<byte>, i: nat)
    requires i < |s| && s[i] != SEPARATOR
    ensures var end := TokenEnd(s, i);
            Tokens(s, i) == [s[i..end]] + (if end < |s| then Tokens(s, end + 1) else [])
  {
    hide TokenEnd, Free, SkipSeparators;
    NothingSkipped(s, i);
  }

  lemma NothingSkipped(s: seq<byte>, i: nat)
    requires i < |s| && s[i] != SEPARATOR
    ensures SkipSeparators(s, i) == i
  {
  }

  /** On an admitted path the tokens are exactly the components, so the walk visits no other name. */
  lemma {:induction false} TokensAreComponents(s: seq<byte>, i: nat)
    requires i < |s| && AllGood(Split(s[i..], SEPARATOR))
    ensures Tokens(s, i) == Split(s[i..], SEPARATOR)
    decreases |s| - i
  {
    hide Split, GoodName, AllGood, Tokens;
    var t, end := s[i..], TokenEnd(s, i);
    NoEdgeSeparator(t);
    TokensHere(s, i);
    var c := s[i..end];
    if end == |s| {
      assert t == c;
      LastName(c);
    } else {
      var rest := s[end + 1..];
      assert t == c + [SEPARATOR] + rest;
      FirstName(c, rest);
      assert t[|t| - 1] == s[|s| - 1] && end + 1 < |s|;
      TokensAreComponents(s, end + 1);
    }
  }

  lemma NoEdgeSeparator(s: seq<byte>)
    requires s != [] && AllGood(Split(s, SEPARATOR))
    ensures s[0] != SEPARATOR && s[|s| - 1] != SEPARATOR
  {
    if s[0] == SEPARATOR || s[|s| - 1] == SEPARATOR {
      EdgeSeparator(s);
    }
  }

  lemma WalkedComponents(path: seq<byte>)
    requires Admitted(path, true)
    ensures Tokens(path, 0) == Components(path) && AllGood(Components(path))
  {
    if path != [] {
      assert path[0..] == path;
      TokensAreComponents(path, 0);
    }
  }

  /** strrchr: the position after the last separator, or 0. */
  function LeafStart(s: seq<byte>): (r: nat)
    ensures r <= |s| && Free(s[r..], SEPARATOR) && (r > 0 ==> s[r - 1] == SEPARATOR)
  {
    if s == [] then 0
    else if s[|s| - 1] == SEPARATOR then |s|
    else
      var r := LeafStart(s[..|s| - 1]);
      assert s[r..] == s[..|s| - 1][r..] + [s[|s| - 1]];
      r
  }

  function ParentOf(path: seq<byte>): seq<byte>
  {
    if LeafStart(path) == 0 then [] else path[..LeafStart(path) - 1]
  }

  function LeafOf(path: seq<byte>): seq<byte> { path[LeafStart(path)..] }

  lemma SplitUnfold(s: seq<byte>, sep: byte)
    ensures Split(s, sep)
            == if s == [] then [[]]
               else if s[0] == sep then [[]] + Split(s[1..], sep)
               else [[s[0]] + Split(s[1..], sep)[0]] + Split(s[1..], sep)[1..]
  {
  }

  lemma Extended(parts: seq<seq<byte>>, leaf: seq<byte>, c: byte)
    requires |parts| >= 1
    ensures [[]] + (parts + [leaf]) == ([[]] + parts) + [leaf]
    ensures [[c] + (parts + [leaf])[0]] + (parts + [leaf])[1..] == ([[c] + parts[0]] + parts[1..]) + [leaf]
  {
  }

  lemma {:induction false} SplitLast(a: seq<byte>, leaf: seq<byte>, sep: byte)
    requires Free(leaf, sep)
    ensures Split(a + [sep] + leaf, sep) == Split(a, sep) + [leaf]
  {
    hide Split;
    var s := a + [sep] + leaf;
    SplitUnfold(s, sep);
    SplitUnfold(a, sep);
    if a == [] {
      assert s[1..] == leaf;
      SplitFree(leaf, sep);
    } else {
      SplitLast(a[1..], leaf, sep);
      assert s[1..] == a[1..] + [sep] + leaf;
      Extended(Split(a[1..], sep), leaf, a[0]);
    }
  }

  /** Splitting off the leaf splits off the last component: the parent's components and the leaf are the path's. */
  lemma ParentAndLeaf(path: seq<byte>)
    requires Admitted(path, false)
    ensures Admitted(ParentOf(path), true) && GoodName(LeafOf(path))
    ensures Components(path) == Components(ParentOf(path)) + [LeafOf(path)]
  {
    var r := LeafStart(path);
    if r == 0 {
      assert path[0..] == path;
      SplitFree(path, SEPARATOR);
      assert Split(path, SEPARATOR)[0] == path;
    } else {
      var parent, leaf := path[..r - 1], path[r..];
      assert path == parent + [SEPARATOR] + leaf;
      SplitLast(parent, leaf, SEPARATOR);
      var cs := Split(parent, SEPARATOR);
      assert forall k | 0 <= k < |cs| :: cs[k] == (cs + [leaf])[k];
      assert (cs + [leaf])[|cs|] == leaf;
      assert GoodName(cs[0]) && !GoodName([]);
    }
  }
}
