/**
  Index keys of tree.c: every key is padded with 'a' (0x61) to the fixed key
  width `_HASH` = 33 before it touches a node, and node keys are compared
  with C's `strncmp` over 33 bytes.  Keys handed to the store are C strings,
  so they hold no NUL byte.
 */
module Keys {
  import opened Codec

  /** `_HASH`: the fixed width of a key inside a node. */
  const HASH: nat := 33

  /** The padding byte, 'a'. */
  const FILLER: byte := 0x61

  predicate NoNul(s: seq<byte>)
  {
    forall j :: 0 <= j < |s| ==> s[j] != 0
  }

  /** The C string held by a buffer: its bytes up to the first NUL. */
  function CStr(b: seq<byte>): (r: seq<byte>)
    ensures |r| <= |b| && r == b[..|r|] && NoNul(r)
    ensures |r| < |b| ==> b[|r|] == 0
  {
    if |b| == 0 || b[0] == 0 then [] else [b[0]] + CStr(b[1..])
  }

  /** The n bytes `strncpy(dst, src, n)` stores: the C string of src cut to
      n bytes, then zero-filled up to n. */
  function Strncpy(src: seq<byte>, n: nat): (r: seq<byte>)
    ensures |r| == n
  {
    var c := CStr(src);
    if |c| >= n then c[..n] else c + seq(n - |c|, _ => 0)
  }

  /** The key a C caller's buffer stands for after the padding step of
      `_insert`, `search`, `get` and `delete`: a key shorter than `_HASH` is
      right-padded with 'a' up to `_HASH` bytes; a longer one is unchanged. */
  function Normalize(key: seq<byte>): seq<byte>
  {
    if |key| < HASH then key + seq(HASH - |key|, _ => FILLER) else key
  }

  /** The 33 bytes of the normalised key that the node operations use. */
  function IndexKey(key: seq<byte>): (r: seq<byte>)
    ensures |r| == HASH
  {
    Normalize(key)[..HASH]
  }

  // ---------------------------------------------------------------------
  // strncmp

  /** Comparing a with b over n bytes would run past the end of a: the two
      agree, without a NUL, on all of a. */
  predicate Overruns(a: seq<byte>, b: seq<byte>)
    requires |a| <= |b|
  {
    forall j :: 0 <= j < |a| ==> a[j] == b[j] && a[j] != 0
  }

  /** `strncmp(a, b, n)` reads only bytes that are there. */
  predicate Within(a: seq<byte>, b: seq<byte>, n: nat)
  {
    |b| >= n && (|a| >= n || !Overruns(a, b))
  }

  /** C's `strncmp` on unsigned bytes: the difference of the first differing
      bytes, or 0 if the strings agree up to a NUL or up to n bytes. */
  function Strncmp(a: seq<byte>, b: seq<byte>, n: nat): int
    requires Within(a, b, n)
    decreases n
  {
    if n == 0 then 0
    else if a[0] != b[0] then a[0] - b[0]
    else if a[0] == 0 then 0
    else (
      assert |a| < n ==> exists j :: 1 <= j < |a| && !(a[j] == b[j] && a[j] != 0);
      assert Within(a[1..], b[1..], n - 1) by {
        if |a| < n {
          var j :| 1 <= j < |a| && !(a[j] == b[j] && a[j] != 0);
          assert a[1..][j - 1] == a[j] && b[1..][j - 1] == b[j];
        }
      }
      Strncmp(a[1..], b[1..], n - 1))
  }

  /** Reference order: a is below b in the first n bytes when they agree up
      to some position j < n and a's byte there is smaller. */
  ghost predicate LexLess(a: seq<byte>, b: seq<byte>, n: nat)
    requires |a| >= n && |b| >= n
  {
    exists j :: 0 <= j < n && a[..j] == b[..j] && a[j] < b[j]
  }

  // ---------------------------------------------------------------------
  // Properties of the padding step

  /** A short key is padded with 'a' to exactly `_HASH` bytes. */
  lemma NormalizeShort(key: seq<byte>)
    requires |key| < HASH
    ensures |Normalize(key)| == HASH && Normalize(key)[..|key|] == key
    ensures forall j :: |key| <= j < HASH ==> Normalize(key)[j] == FILLER
  {
  }

  /** A key of `_HASH` bytes or more is used as it is, but only its first
      `_HASH` bytes take part in the index. */
  lemma NormalizeLong(key: seq<byte>)
    requires |key| >= HASH
    ensures Normalize(key) == key && IndexKey(key) == key[..HASH]
  {
  }

  lemma NormalizeIdempotent(key: seq<byte>)
    ensures Normalize(Normalize(key)) == Normalize(key)
    ensures IndexKey(IndexKey(key)) == IndexKey(key)
  {
  }

  /** Normalising a C string gives a C string: padding never adds a NUL. */
  lemma IndexKeyNoNul(key: seq<byte>)
    requires NoNul(key)
    ensures NoNul(Normalize(key)) && NoNul(IndexKey(key))
  {
  }

  /** Trailing 'a's are invisible to the index: a short key and the same key
      with one more 'a' collide. */
  lemma PaddingCollision(key: seq<byte>)
    requires |key| < HASH
    ensures IndexKey(key + [FILLER]) == IndexKey(key)
  {
    var k2 := key + [FILLER];
    if |k2| < HASH {
      assert Normalize(k2) == Normalize(key);
    } else {
      assert Normalize(k2) == k2;
      assert Normalize(key) == key + [FILLER];
    }
  }

  /** Bytes beyond `_HASH` are invisible to the index. */
  lemma TruncationCollision(a: seq<byte>, b: seq<byte>)
    requires |a| >= HASH && |b| >= HASH && a[..HASH] == b[..HASH]
    ensures IndexKey(a) == IndexKey(b)
  {
  }

  // ---------------------------------------------------------------------
  // Properties of strncmp on C strings

  lemma NoNulTail(b: seq<byte>, n: nat)
    requires 0 < n <= |b| && NoNul(b[..n])
    ensures b[0] != 0 && NoNul(b[1..][..n - 1])
  {
    assert b[0] == b[..n][0];
    assert b[1..][..n - 1] == b[..n][1..];
  }

  /** Against a NUL-free b, strncmp reports equality exactly when the first
      n bytes agree. */
  lemma {:induction false} StrncmpZero(a: seq<byte>, b: seq<byte>, n: nat)
    requires |a| >= n && |b| >= n && NoNul(b[..n])
    ensures Strncmp(a, b, n) == 0 <==> a[..n] == b[..n]
    decreases n
  {
    if n > 0 && a[0] == b[0] {
      assert b[0] == b[..n][0];
      assert a[1..][..n - 1] == a[1..n] && b[1..][..n - 1] == b[1..n];
      NoNulTail(b, n);
      StrncmpZero(a[1..], b[1..], n - 1);
      assert a[..n] == [a[0]] + a[1..n];
      assert b[..n] == [b[0]] + b[1..n];
    } else if n > 0 {
      assert a[..n][0] != b[..n][0];
    }
  }

  /** Against a NUL-free b, strncmp is the lexicographic order. */
  lemma {:induction false} StrncmpIsLex(a: seq<byte>, b: seq<byte>, n: nat)
    requires |a| >= n && |b| >= n && NoNul(b[..n])
    ensures Strncmp(a, b, n) < 0 <==> LexLess(a, b, n)
    ensures Strncmp(a, b, n) > 0 <==> LexLess(b, a, n)
    decreases n
  {
    if n == 0 {
    } else if a[0] != b[0] {
      assert a[..0] == b[..0];
      if a[0] < b[0] {
        assert LexLess(a, b, n);
        assert !LexLess(b, a, n) by {
          if LexLess(b, a, n) {
            var j :| 0 <= j < n && b[..j] == a[..j] && b[j] < a[j];
          }
        }
      } else {
        assert LexLess(b, a, n);
        assert !LexLess(a, b, n);
      }
    } else {
      assert b[0] == b[..n][0];
      var a', b' := a[1..], b[1..];
      NoNulTail(b, n);
      StrncmpIsLex(a', b', n - 1);
      LexLessCons(a, b, n);
      LexLessCons(b, a, n);
    }
  }

  /** Removing an equal first byte does not change the order. */
  lemma LexLessCons(a: seq<byte>, b: seq<byte>, n: nat)
    requires |a| >= n > 0 && |b| >= n && a[0] == b[0]
    ensures LexLess(a, b, n) <==> LexLess(a[1..], b[1..], n - 1)
  {
    if LexLess(a, b, n) {
      var j :| 0 <= j < n && a[..j] == b[..j] && a[j] < b[j];
      assert j > 0;
      assert a[1..][..j - 1] == a[..j][1..] && b[1..][..j - 1] == b[..j][1..];
      assert a[1..][j - 1] == a[j] && b[1..][j - 1] == b[j];
    }
    if LexLess(a[1..], b[1..], n - 1) {
      var j :| 0 <= j < n - 1 && a[1..][..j] == b[1..][..j] && a[1..][j] < b[1..][j];
      assert a[..j + 1] == [a[0]] + a[1..][..j];
      assert b[..j + 1] == [b[0]] + b[1..][..j];
      assert a[j + 1] < b[j + 1];
    }
  }

  /** Swapping the arguments of strncmp flips the sign of the result, for
      NUL-free keys. */
  lemma {:induction false} StrncmpAntisym(a: seq<byte>, b: seq<byte>, n: nat)
    requires |a| >= n && |b| >= n
    ensures Strncmp(a, b, n) < 0 <==> Strncmp(b, a, n) > 0
    ensures Strncmp(a, b, n) == 0 <==> Strncmp(b, a, n) == 0
    decreases n
  {
    if n > 0 && a[0] == b[0] && a[0] != 0 {
      StrncmpAntisym(a[1..], b[1..], n - 1);
    }
  }

  /** The order strncmp induces on NUL-free keys is transitive. */
  lemma {:induction false} StrncmpTrans(a: seq<byte>, b: seq<byte>, c: seq<byte>, n: nat)
    requires |a| >= n && |b| >= n && |c| >= n && NoNul(b[..n])
    requires Strncmp(a, b, n) < 0 && Strncmp(b, c, n) < 0
    ensures Strncmp(a, c, n) < 0
    decreases n
  {
    assert b[0] == b[..n][0];
    if a[0] == b[0] && b[0] == c[0] {
      NoNulTail(b, n);
      StrncmpTrans(a[1..], b[1..], c[1..], n - 1);
    }
  }

  // ---------------------------------------------------------------------
  // Ascending sequences of index keys

  /** NUL-free index keys, strictly ascending under strncmp. */
  predicate Ascending(ks: seq<seq<byte>>)
  {
    && (forall i :: 0 <= i < |ks| ==> |ks[i]| == HASH && NoNul(ks[i]))
    && (forall i, j :: 0 <= i < j < |ks| ==> Strncmp(ks[i], ks[j], HASH) < 0)
  }

  /** The keys ks with k inserted at position s. */
  function Inserted(ks: seq<seq<byte>>, s: nat, k: seq<byte>): (t: seq<seq<byte>>)
    requires s <= |ks|
    ensures |t| == |ks| + 1
  {
    seq(|ks| + 1, i requires 0 <= i <= |ks| => if i < s then ks[i] else if i == s then k else ks[i - 1])
  }

  /** A key above all others can join them at the end. */
  lemma AppendAscending(ks: seq<seq<byte>>, k: seq<byte>)
    requires Ascending(ks) && |k| == HASH && NoNul(k)
    requires forall i :: 0 <= i < |ks| ==> Strncmp(ks[i], k, HASH) < 0
    ensures Ascending(ks + [k])
  {
    InsertAscending(ks, |ks|, k);
    assert Inserted(ks, |ks|, k) == ks + [k];
  }

  /** Putting k between the keys below it and the keys above it keeps the
      sequence ascending. */
  lemma InsertAscending(ks: seq<seq<byte>>, s: nat, k: seq<byte>)
    requires Ascending(ks) && s <= |ks| && |k| == HASH && NoNul(k)
    requires forall i :: 0 <= i < s ==> Strncmp(ks[i], k, HASH) < 0
    requires s < |ks| ==> Strncmp(k, ks[s], HASH) < 0
    ensures Ascending(Inserted(ks, s, k))
  {
    var t := Inserted(ks, s, k);
    forall i, j | 0 <= i < j < |t|
      ensures Strncmp(t[i], t[j], HASH) < 0
    {
      if i == s && j > s + 1 {
        assert ks[s][..HASH] == ks[s];
        StrncmpTrans(k, ks[s], ks[j - 1], HASH);
      }
    }
  }

  /** Removing keys from an ascending sequence keeps it ascending. */
  lemma AscendingSlice(ks: seq<seq<byte>>, a: nat, b: nat)
    requires Ascending(ks) && a <= b <= |ks|
    ensures Ascending(ks[a..b])
  {
    assert forall i :: 0 <= i < b - a ==> ks[a..b][i] == ks[a + i];
  }

  /** An ascending sequence holds each key once. */
  lemma AscendingDistinct(ks: seq<seq<byte>>, i: nat, j: nat)
    requires Ascending(ks) && i < |ks| && j < |ks| && ks[i] == ks[j]
    ensures i == j
  {
    assert ks[j][..HASH] == ks[j];
    StrncmpZero(ks[i], ks[j], HASH);
  }

  /** Byte t of `strncpy`'s output: the source byte before its NUL, 0 after. */
  lemma StrncpyAt(src: seq<byte>, n: nat, t: nat)
    requires t < n
    ensures Strncpy(src, n)[t] == if t < |CStr(src)| then src[t] else 0
  {
  }

  /** `strncpy` of a NUL-free string of exactly n bytes copies it. */
  lemma StrncpyNoNul(src: seq<byte>, n: nat)
    requires |src| == n && NoNul(src)
    ensures Strncpy(src, n) == src
  {
    assert CStr(src) == src;
  }

  /** A terminating NUL does not change the C string. */
  lemma {:induction false} CStrNul(s: seq<byte>)
    ensures CStr(s + [0]) == CStr(s)
  {
    if |s| > 0 && s[0] != 0 {
      assert (s + [0])[1..] == s[1..] + [0];
      CStrNul(s[1..]);
    }
  }
}
