/** Searching and trimming text; a character stands for a byte of ASCII text. */
module Text {
  import opened Bytes

  ghost predicate OccursAt(h: string, n: string, i: nat) {
    i + |n| <= |h| && h[i..i + |n|] == n
  }

  ghost predicate Contains(h: string, n: string) {
    exists i: nat :: OccursAt(h, n, i)
  }

  /** The first place of `n` in `h`. */
  function Find(h: string, n: string): (r: Option<nat>)
    ensures r.Some? ==> r.value + |n| <= |h|
    decreases |h|
  {
    if n == "" || |h| < |n| then None
    else if n <= h then Some(0)
    else
      match Find(h[1..], n)
      case None => None
      case Some(k) => Some(k + 1)
  }

  lemma OccursShift(h: string, n: string, i: nat)
    requires 0 < |h|
    ensures OccursAt(h, n, i + 1) <==> OccursAt(h[1..], n, i)
  {
    if i + 1 + |n| <= |h| {
      assert h[1..][i..i + |n|] == h[i + 1..i + 1 + |n|];
    }
  }

  /** `Find` returns the least index at which a needle occurs, and nothing exactly when there is none. */
  lemma {:induction false} FindFirst(h: string, n: string)
    requires n != ""
    ensures Find(h, n).Some? ==> OccursAt(h, n, Find(h, n).value)
    ensures forall i: nat :: OccursAt(h, n, i) ==> Find(h, n).Some? && Find(h, n).value <= i
    decreases |h|
  {
    hide OccursAt;
    if |h| < |n| {
      NoRoom(h, n);
    } else if n <= h {
      OccursAtStart(h, n);
    } else {
      FindFirst(h[1..], n);
      OccursAtStart(h, n);
      if Find(h, n).Some? {
        OccursShift(h, n, Find(h[1..], n).value);
      }
      forall i: nat | OccursAt(h, n, i) ensures Find(h, n).Some? && Find(h, n).value <= i {
        OccursShift(h, n, i - 1);
      }
    }
  }

  lemma NoRoom(h: string, n: string)
    requires |h| < |n|
    ensures forall i: nat :: !OccursAt(h, n, i)
  {
  }

  lemma OccursAtStart(h: string, n: string)
    ensures OccursAt(h, n, 0) <==> n <= h
  {
  }

  /** A first occurrence pins down the result of the search. */
  lemma FindIs(h: string, n: string, k: nat)
    requires n != "" && OccursAt(h, n, k) && forall i :: 0 <= i < k ==> !OccursAt(h, n, i)
    ensures Find(h, n) == Some(k)
  {
    hide OccursAt, Find;
    FindFirst(h, n);
  }

  lemma FindNone(h: string, n: string)
    requires n != ""
    ensures Find(h, n) == None <==> !Contains(h, n)
  {
    hide OccursAt, Find;
    FindFirst(h, n);
  }

  lemma PartContains(h: string, n: string, a: nat, b: nat)
    requires a <= b <= |h| && Contains(h[a..b], n)
    ensures Contains(h, n)
  {
    var i: nat :| OccursAt(h[a..b], n, i);
    SliceOfSlice(h, a, b, i, i + |n|);
    assert OccursAt(h, n, a + i);
  }

  /** Search a slice for another, window by window. */
  method FindSubslice(h: string, n: string) returns (r: Option<nat>)
    ensures n == "" ==> r == None
    ensures n != "" && r.Some? ==> OccursAt(h, n, r.value) && forall i :: 0 <= i < r.value ==> !OccursAt(h, n, i)
    ensures n != "" && r.None? ==> !Contains(h, n)
    ensures r == Find(h, n)
  {
    if n == "" || |h| < |n| {
      return None;
    }
    var k := 0;
    while k + |n| <= |h|
      invariant forall i :: 0 <= i < k ==> !OccursAt(h, n, i)
    {
      if h[k..k + |n|] == n {
        FindIs(h, n, k);
        return Some(k);
      }
      k := k + 1;
    }
    FindNone(h, n);
    return None;
  }

  // ----- characters -----

  predicate IsAlphanumeric(c: char) {
    'a' <= c <= 'z' || 'A' <= c <= 'Z' || '0' <= c <= '9'
  }

  predicate IsSpace(c: char) {
    c == ' ' || '\t' <= c <= '\r'
  }

  function TrimStart(s: string): string {
    if s != "" && IsSpace(s[0]) then TrimStart(s[1..]) else s
  }

  function TrimEnd(s: string): string {
    if s != "" && IsSpace(s[|s| - 1]) then TrimEnd(s[..|s| - 1]) else s
  }

  function Trim(s: string): string { TrimEnd(TrimStart(s)) }

  lemma {:induction false} TrimEndIsPart(s: string) returns (b: nat)
    ensures b <= |s| && TrimEnd(s) == s[..b]
  {
    if s != "" && IsSpace(s[|s| - 1]) {
      b := TrimEndIsPart(s[..|s| - 1]);
      assert s[..|s| - 1][..b] == s[..b];
    } else {
      b := |s|;
    }
  }

  lemma {:induction false} TrimIsPart(s: string) returns (a: nat, b: nat)
    ensures a <= b <= |s| && Trim(s) == s[a..b]
  {
    if s != "" && IsSpace(s[0]) {
      a, b := TrimIsPart(s[1..]);
      assert s[1..][a..b] == s[a + 1..b + 1];
      a, b := a + 1, b + 1;
    } else {
      a := 0;
      b := TrimEndIsPart(s);
    }
  }

  function IndexOf(s: string, c: char): (k: nat)
    ensures k <= |s|
    ensures forall i :: 0 <= i < k ==> s[i] != c
    ensures k < |s| ==> s[k] == c
  {
    if s == "" || s[0] == c then 0 else 1 + IndexOf(s[1..], c)
  }
}
