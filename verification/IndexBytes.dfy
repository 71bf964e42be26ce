/** bytes/bytes.go: IndexRune and Index, with the bytealg routines they fall back on
    given by what they promise. */
module IndexBytes {

  import opened Common
  import opened Utf8

  // ----- what is searched for

  predicate Occurs(s: seq<Byte>, sep: seq<Byte>, p: int) {
    0 <= p && p + |sep| <= |s| && s[p..p + |sep|] == sep
  }

  /** The first occurrence of sep in s at i or later, -1 if there is none. */
  function FirstAt(s: seq<Byte>, sep: seq<Byte>, i: nat): (r: int)
    ensures r == -1 || (r >= i && Occurs(s, sep, r))
    ensures forall p :: i <= p && Occurs(s, sep, p) ==> 0 <= r <= p
    decreases |s| - i
  {
    if Occurs(s, sep, i) then i
    else if i >= |s| then -1
    else FirstAt(s, sep, i + 1)
  }

  /** The first position, decoding from i, at which r is decoded. */
  function RuneAt(s: seq<Byte>, r: int, i: nat): int
    decreases |s| - i
  {
    if i >= |s| then -1
    else if Decode(s[i..]).r == r then i
    else RuneAt(s, r, i + Decode(s[i..]).n)
  }

  /** bytealg.IndexByte: the first c, -1 if there is none. */
  function IndexByte(s: seq<Byte>, c: Byte): (r: int)
    ensures r == -1 || 0 <= r < |s|
    ensures r >= 0 ==> s[r] == c && forall p :: 0 <= p < r ==> s[p] != c
    ensures r < 0 ==> c !in s
  {
    if s == [] then -1
    else if s[0] == c then 0
    else var o := IndexByte(s[1..], c); if o < 0 then -1 else o + 1
  }

  ghost predicate NoneBefore(s: seq<Byte>, sep: seq<Byte>, k: int) {
    forall p :: 0 <= p < k ==> !Occurs(s, sep, p)
  }

  lemma Found(s: seq<Byte>, sep: seq<Byte>, k: nat)
    requires NoneBefore(s, sep, k) && Occurs(s, sep, k)
    ensures FirstAt(s, sep, 0) == k
  {
  }

  lemma NotFound(s: seq<Byte>, sep: seq<Byte>, k: int)
    requires NoneBefore(s, sep, k) && k + |sep| > |s|
    ensures FirstAt(s, sep, 0) == -1
  {
    var r := FirstAt(s, sep, 0);
    assert r >= 0 ==> Occurs(s, sep, r);
  }

  // ----- UTF-8 is self-synchronising

  lemma {:induction false} FirstSkips(s: seq<Byte>, sep: seq<Byte>, i: nat, k: nat)
    requires i <= k && forall p :: i <= p < k ==> !Occurs(s, sep, p)
    ensures FirstAt(s, sep, i) == FirstAt(s, sep, k)
    decreases k - i
  {
    if i < k {
      FirstSkips(s, sep, i + 1, k);
      if i >= |s| { assert FirstAt(s, sep, i + 1) == -1; }
    }
  }

  lemma DecodesThere(s: seq<Byte>, r: int, i: nat)
    requires ValidRune(r) && Occurs(s, Encode(r), i)
    ensures i < |s| && Decode(s[i..]).r == r
  {
    hide Decode, Encode;
    var sep := Encode(r);
    assert s[i..] == sep + s[i + |sep|..];
    DecodeEncode(r, s[i + |sep|..]);
  }

  lemma HeadOf(s: seq<Byte>, sep: seq<Byte>, p: nat)
    requires Occurs(s, sep, p) && |sep| > 0
    ensures s[p] == sep[0]
  {
    assert s[p..p + |sep|][0] == s[p];
  }

  lemma NotInside(s: seq<Byte>, r: int, i: nat, p: nat)
    requires i < |s| && i < p < i + Decode(s[i..]).n
    ensures !Occurs(s, Encode(r), p)
  {
    hide Decode, Encode, IsCont, Occurs;
    Continues(s[i..], p - i);
    Starts(r);
    if Occurs(s, Encode(r), p) { HeadOf(s, Encode(r), p); }
  }

  /** Decoding from left to right finds r exactly where its encoding first occurs, however
      malformed the bytes around it. */
  lemma {:induction false} SelfSynchronising(s: seq<Byte>, r: int, i: nat)
    requires ValidRune(r) && r != RUNE_ERROR
    ensures RuneAt(s, r, i) == FirstAt(s, Encode(r), i)
    decreases |s| - i
  {
    hide Decode, Encode;
    var sep := Encode(r);
    if i < |s| {
      var t := s[i..];
      var d := Decode(t);
      EncodeDecode(t);
      if d.r == r {
        assert t[..d.n] == s[i..i + |sep|];
      } else {
        if Occurs(s, sep, i) { DecodesThere(s, r, i); }
        forall p | i <= p < i + d.n ensures !Occurs(s, sep, p) {
          if i < p { NotInside(s, r, i, p); }
        }
        FirstSkips(s, sep, i, i + d.n);
        SelfSynchronising(s, r, i + d.n);
      }
    }
  }

  lemma {:induction false} NeverInvalid(s: seq<Byte>, r: int, i: nat)
    requires !ValidRune(r)
    ensures RuneAt(s, r, i) == -1
    decreases |s| - i
  {
    hide Decode, Encode;
    if i < |s| {
      EncodeDecode(s[i..]);
      NeverInvalid(s, r, i + Decode(s[i..]).n);
    }
  }

  // ----- IndexRune

  /** sep[1..] matches before the byte at i, compared from the back. */
  method MatchesBack(s: seq<Byte>, sep: seq<Byte>, i: nat) returns (ok: bool)
    requires 1 <= |sep| <= i + 1 && i < |s| && s[i] == sep[|sep| - 1]
    ensures ok <==> Occurs(s, sep, i + 1 - |sep|)
  {
    var last := |sep| - 1;
    var j := 1;
    while j < |sep|
      invariant 1 <= j <= |sep|
      invariant s[i + 1 - j..i + 1] == sep[|sep| - j..]
    {
      if s[i - j] != sep[last - j] {
        assert s[i - last..i + 1][last - j] == s[i - j];
        return false;
      }
      assert s[i - j..i + 1] == [s[i - j]] + s[i + 1 - j..i + 1];
      assert sep[|sep| - j - 1..] == [sep[last - j]] + sep[|sep| - j..];
      j := j + 1;
    }
    return true;
  }

  /** No occurrence ends strictly between i and the next sep[last]. */
  lemma SkipTo(s: seq<Byte>, sep: seq<Byte>, i: nat, j: nat)
    requires |sep| > 0 && |sep| - 1 <= i <= j && j <= |s| && NoneBefore(s, sep, i + 1 - |sep|)
    requires forall p :: i <= p < j ==> s[p] != sep[|sep| - 1]
    ensures NoneBefore(s, sep, j + 1 - |sep|)
  {
    var last := |sep| - 1;
    forall p | 0 <= p < j - last ensures !Occurs(s, sep, p) {
      if p >= i - last && p + |sep| <= |s| {
        assert s[p..p + |sep|][last] == s[p + last];
      }
    }
  }

  lemma SkipByte(s: seq<Byte>, sep: seq<Byte>, i: nat, j: nat)
    requires |sep| > 0 && |sep| - 1 <= i < j <= |s| && NoneBefore(s, sep, i + 1 - |sep|) && s[i] != sep[|sep| - 1]
    requires sep[|sep| - 1] !in s[i + 1..][..j - i - 1]
    ensures NoneBefore(s, sep, j + 1 - |sep|)
  {
    assert forall p :: i + 1 <= p < j ==> s[p] == s[i + 1..][..j - i - 1][p - i - 1];
    SkipTo(s, sep, i, j);
  }

  /** The search by last byte, with r already encoded; `fast` says whether bytealg.Index
      is there to fall back on, and `cutover` when. */
  method SearchRune(s: seq<Byte>, b: seq<Byte>, fast: bool, cutover: nat -> int) returns (p: int)
    requires 2 <= |b| <= 4
    ensures p == FirstAt(s, b, 0)
  {
    hide Occurs, FirstAt;
    var last := |b| - 1;
    var i := last;
    var fails := 0;
    while i < |s|
      invariant last <= i
      invariant NoneBefore(s, b, i - last)
    {
      if s[i] != b[last] {
        var o := IndexByte(s[i + 1..], b[last]);
        if o < 0 {
          assert s[i + 1..][..|s| - i - 1] == s[i + 1..];
          SkipByte(s, b, i, |s|);
          NotFound(s, b, |s| - last);
          return -1;
        }
        SkipByte(s, b, i, i + o + 1);
        i := i + o + 1;
      }
      var ok := MatchesBack(s, b, i);
      if ok {
        Found(s, b, i - last);
        return i - last;
      }
      fails := fails + 1;
      i := i + 1;
      if i < |s| && (if fast then fails > cutover(i) else fails >= 4 + i / 16) {
        p := Fallback(s, b, i, fast);
        return;
      }
    }
    NotFound(s, b, i - last);
    return -1;
  }

  lemma OccursShifted(s: seq<Byte>, sep: seq<Byte>, k: nat, p: int)
    requires 0 <= k <= |s| && k <= p
    ensures Occurs(s[k..], sep, p - k) <==> Occurs(s, sep, p)
  {
    if p + |sep| <= |s| {
      assert s[k..][p - k..p - k + |sep|] == s[p..p + |sep|];
    }
  }

  /** Searching the rest of s, nothing having been found before it. */
  lemma FirstShifted(s: seq<Byte>, sep: seq<Byte>, k: nat)
    requires k <= |s| && NoneBefore(s, sep, k)
    ensures var j := FirstAt(s[k..], sep, 0); FirstAt(s, sep, 0) == if j >= 0 then k + j else -1
  {
    var j := FirstAt(s[k..], sep, 0);
    var r := FirstAt(s, sep, 0);
    if j >= 0 { OccursShifted(s, sep, k, k + j); }
    if r >= 0 { OccursShifted(s, sep, k, r); }
    assert r >= 0 ==> r >= k;
  }

  method Fallback(s: seq<Byte>, b: seq<Byte>, i0: nat, fast: bool) returns (p: int)
    requires 2 <= |b| <= 4 && |b| - 1 <= i0 < |s| && NoneBefore(s, b, i0 + 1 - |b|)
    ensures p == FirstAt(s, b, 0)
  {
    var last := |b| - 1;
    var i := i0;
    if fast {
      var j := FirstAt(s[i - last..], b, 0);     // bytealg.Index
      FirstShifted(s, b, i - last);
      return if j >= 0 then i + j - last else -1;
    }
    while i < |s|
      invariant last <= i <= |s|
      invariant NoneBefore(s, b, i - last)
    {
      if s[i] == b[last] {
        var ok := MatchesBack(s, b, i);
        if ok {
          Found(s, b, i - last);
          return i - last;
        }
      } else {
        SkipTo(s, b, i, i + 1);
      }
      i := i + 1;
    }
    NotFound(s, b, i - last);
    return -1;
  }

  /** IndexRune is the first position at which decoding from the left yields r, for every
      rune, every byte string and every way of falling back. */
  method IndexRune(s: seq<Byte>, r: int, fast: bool, cutover: nat -> int) returns (p: int)
    ensures p == RuneAt(s, r, 0)
  {
    if 0 <= r < RUNE_SELF {
      p := IndexByte(s, r);
      ByteIsRune(s, r);
    } else if r == RUNE_ERROR {
      var i: nat := 0;
      while i < |s|
        invariant RuneAt(s, r, 0) == RuneAt(s, r, i)
      {
        var d := Decode(s[i..]);
        if d.r == RUNE_ERROR { return i; }
        i := i + d.n;
      }
      return -1;
    } else if !ValidRune(r) {
      NeverInvalid(s, r, 0);
      return -1;
    } else {
      SelfSynchronising(s, r, 0);
      p := SearchRune(s, Encode(r), fast, cutover);
    }
  }

  lemma ByteIsRune(s: seq<Byte>, r: Byte)
    requires r < RUNE_SELF
    ensures IndexByte(s, r) == RuneAt(s, r, 0)
  {
    SelfSynchronising(s, r, 0);
    var k := IndexByte(s, r);
    var f := FirstAt(s, [r], 0);
    if k >= 0 { assert s[k..k + 1] == [r] && Occurs(s, [r], k); }
    if f >= 0 { assert s[f..f + 1][0] == s[f]; }
  }

  // ----- Index

  /** The search by first and second byte. */
  method SearchFirst(s: seq<Byte>, sep: seq<Byte>, fast: bool, cutover: nat -> int) returns (p: int)
    requires 2 <= |sep| < |s|
    ensures p == FirstAt(s, sep, 0)
  {
    hide FirstAt;
    var n := |sep|;
    var t := |s| - n + 1;
    var i: nat := 0;
    var fails: nat := 0;
    while i < t
      invariant i <= t
      invariant NoneBefore(s, sep, i)
    {
      if s[i] != sep[0] {
        var o := IndexByte(s[i + 1..t], sep[0]);
        if o < 0 {
          SkipFirst(s, sep, i, t);
          NotFound(s, sep, t);
          return -1;
        }
        SkipFirst(s, sep, i, i + o + 1);
        i := i + o + 1;
      }
      assert s[i..i + n][1] == s[i + 1];
      if s[i + 1] == sep[1] && s[i..i + n] == sep {
        Found(s, sep, i);
        return i;
      }
      fails := fails + 1;
      i := i + 1;
      if if fast then fails > cutover(i) else fails >= 4 + i / 16 && i < t {
        FirstShifted(s, sep, i);
        var j := FirstAt(s[i..], sep, 0);      // bytealg.Index, IndexRabinKarp
        return if j < 0 then -1 else i + j;
      }
    }
    NotFound(s, sep, t);
    return -1;
  }

  /** bytes.Index; maxLen and maxBruteForce are properties of the machine. */
  method Index(s: seq<Byte>, sep: seq<Byte>, maxLen: int, maxBruteForce: int, cutover: nat -> int) returns (p: int)
    ensures p == FirstAt(s, sep, 0)
  {
    hide FirstAt;
    var n := |sep|;
    if n == 0 {
      Found(s, sep, 0);
      return 0;
    }
    if n == 1 {
      p := IndexByte(s, sep[0]);
      OneByte(s, sep);
      return;
    }
    if n == |s| {
      if sep == s {
        Found(s, sep, 0);
        return 0;
      }
      assert NoneBefore(s, sep, 1);
      NotFound(s, sep, 1);
      return -1;
    }
    if n > |s| {
      NotFound(s, sep, 0);
      return -1;
    }
    if n <= maxLen && |s| <= maxBruteForce {
      return FirstAt(s, sep, 0);               // bytealg.Index
    }
    p := SearchFirst(s, sep, n <= maxLen, cutover);
  }

  lemma OneByte(s: seq<Byte>, sep: seq<Byte>)
    requires |sep| == 1
    ensures IndexByte(s, sep[0]) == FirstAt(s, sep, 0)
  {
    var k := IndexByte(s, sep[0]);
    var f := FirstAt(s, sep, 0);
    if k >= 0 { assert s[k..k + 1] == sep && Occurs(s, sep, k); }
    if f >= 0 { assert s[f..f + 1][0] == s[f]; }
  }

  /** No occurrence starts strictly between i and the next sep[0]. */
  lemma SkipFirst(s: seq<Byte>, sep: seq<Byte>, i: nat, j: nat)
    requires |sep| > 0 && i < j <= |s| && NoneBefore(s, sep, i) && s[i] != sep[0]
    requires sep[0] !in s[i + 1..j]
    ensures NoneBefore(s, sep, j)
  {
    forall p | 0 <= p < j ensures !Occurs(s, sep, p) {
      if p >= i && p + |sep| <= |s| {
        assert s[p..p + |sep|][0] == s[p];
        assert p > i ==> s[i + 1..j][p - i - 1] == s[p];
      }
    }
  }
}
