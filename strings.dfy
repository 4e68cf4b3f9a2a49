/** The part of Go's `strings` package that target generation relies on.
    Strings are character sequences; the searches below are the byte
    searches of the Go library read on characters. */
module GoStrings {

  /** `sub` occurs in `s` starting at index `i`. */
  predicate OccursAt(s: string, sub: string, i: int)
  {
    0 <= i && i + |sub| <= |s| && s[i..i + |sub|] == sub
  }

  /** The occurrences in `s[1..]` are those in `s` moved one place left. */
  lemma OccursShift(s: string, sub: string)
    requires s != []
    ensures forall j :: OccursAt(s[1..], sub, j) ==> OccursAt(s, sub, j + 1)
    ensures forall j :: 1 <= j && OccursAt(s, sub, j) ==> OccursAt(s[1..], sub, j - 1)
  {
    forall j | 0 <= j ensures OccursAt(s[1..], sub, j) <==> OccursAt(s, sub, j + 1) {
      if j + |sub| <= |s| - 1 {
        SliceOfSlice(s, 1, |s|, j, j + |sub|);
      }
    }
  }

  /** A slice of a slice is a slice. */
  lemma SliceOfSlice(s: string, lo: int, hi: int, i: int, j: int)
    requires 0 <= lo <= hi <= |s| && 0 <= i <= j <= hi - lo
    ensures s[lo..hi][i..j] == s[lo + i..lo + j]
  {
    assert forall k :: 0 <= k < j - i ==> s[lo..hi][i..j][k] == s[lo + i + k];
  }

  /** An occurrence inside a slice of `s` is an occurrence in `s`. */
  lemma OccursInSlice(s: string, lo: int, hi: int, sub: string, i: int)
    requires 0 <= lo <= hi <= |s|
    requires OccursAt(s[lo..hi], sub, i)
    ensures OccursAt(s, sub, lo + i)
  {
    SliceOfSlice(s, lo, hi, i, i + |sub|);
  }

  /** An occurrence of `sub` in `s` that lies inside `s[lo..hi]` is one of the slice. */
  lemma OccursInto(s: string, lo: int, hi: int, sub: string, i: int)
    requires 0 <= lo <= i && i + |sub| <= hi <= |s|
    requires OccursAt(s, sub, i)
    ensures OccursAt(s[lo..hi], sub, i - lo)
  {
    SliceOfSlice(s, lo, hi, i - lo, i - lo + |sub|);
  }

  /** strings.Index: the least index at which `sub` occurs in `s`, or -1
      (IndexSpec). */
  function Index(s: string, sub: string): (r: int)
    ensures r == -1 || (0 <= r && r + |sub| <= |s|)
    decreases |s|
  {
    if |s| < |sub| then -1
    else if s[..|sub|] == sub then 0
    else
      var k := Index(s[1..], sub);
      if k == -1 then -1 else k + 1
  }

  /** Index finds the first occurrence, and -1 means there is none. */
  lemma {:induction false} IndexSpec(s: string, sub: string)
    ensures var r := Index(s, sub);
      && (r == -1 || OccursAt(s, sub, r))
      && forall j :: 0 <= j && (r == -1 || j < r) ==> !OccursAt(s, sub, j)
    decreases |s|
  {
    if |s| >= |sub| && s[..|sub|] != sub {
      IndexSpec(s[1..], sub);
      OccursShift(s, sub);
    }
  }

  /** strings.Contains: some position holds an occurrence of `sub`. */
  function Contains(s: string, sub: string): bool
  {
    exists i | 0 <= i <= |s| - |sub| :: OccursAt(s, sub, i)
  }

  /** Contains agrees with the source's own definition, Index(s, sub) >= 0,
      and with an occurrence at any position. */
  lemma ContainsSpec(s: string, sub: string)
    ensures Contains(s, sub) <==> Index(s, sub) != -1
    ensures Contains(s, sub) <==> exists i :: OccursAt(s, sub, i)
  {
    IndexSpec(s, sub);
  }

  /** A pattern whose first character is missing from `s` does not occur in it. */
  lemma MissingFirst(s: string, sub: string)
    requires sub != [] && sub[0] !in s
    ensures !Contains(s, sub)
  {
    forall i | 0 <= i <= |s| - |sub| ensures !OccursAt(s, sub, i) {
      assert s[i..i + |sub|][0] == s[i];
    }
  }

  /** Every string contains the empty string. */
  lemma ContainsEmpty(s: string)
    ensures Contains(s, "")
  {
    ContainsSpec(s, "");
    assert OccursAt(s, "", 0);
  }

  /** strings.HasPrefix. */
  predicate HasPrefix(s: string, prefix: string)
  {
    |prefix| <= |s| && s[..|prefix|] == prefix
  }

  /** strings.HasSuffix. */
  predicate HasSuffix(s: string, suffix: string)
  {
    |suffix| <= |s| && s[|s| - |suffix|..] == suffix
  }

  /** strings.TrimPrefix: drops `prefix` once, if `s` starts with it. */
  function TrimPrefix(s: string, prefix: string): (r: string)
    ensures HasPrefix(s, prefix) ==> prefix + r == s
    ensures !HasPrefix(s, prefix) ==> r == s
  {
    if HasPrefix(s, prefix) then s[|prefix|..] else s
  }

  /** strings.TrimSuffix: drops `suffix` once, if `s` ends with it. */
  function TrimSuffix(s: string, suffix: string): (r: string)
    ensures HasSuffix(s, suffix) ==> r + suffix == s
    ensures !HasSuffix(s, suffix) ==> r == s
  {
    if HasSuffix(s, suffix) then s[..|s| - |suffix|] else s
  }

  /** What strings.ReplaceAll does with an empty `pat`: `rep` before every
      character and once more at the end. */
  function Interleave(s: string, rep: string): string
  {
    if s == [] then rep else rep + [s[0]] + Interleave(s[1..], rep)
  }

  /** strings.ReplaceAll: every leftmost, non-overlapping occurrence of
      `pat` is replaced by `rep`, scanning left to right. */
  function ReplaceAll(s: string, pat: string, rep: string): string
    decreases |s|
  {
    if pat == "" then Interleave(s, rep)
    else
      var i := Index(s, pat);
      if i == -1 then s
      else s[..i] + rep + ReplaceAll(s[i + |pat|..], pat, rep)
  }

  /** A proper suffix of `a` is a prefix of `b`, so an occurrence of `a`
      can end strictly inside an occurrence of `b`. */
  predicate SuffixMeetsPrefix(a: string, b: string)
  {
    exists k :: 0 < k < |a| && k < |b| && a[|a| - k..] == b[..k]
  }

  /** Occurrences of `a` and `b` can share a character: one contains the
      other or they overlap at an edge. Two non-interfering strings are
      both non-empty (the empty string is contained in every string). */
  predicate Interferes(a: string, b: string)
  {
    Contains(a, b) || Contains(b, a) || SuffixMeetsPrefix(a, b) || SuffixMeetsPrefix(b, a)
  }

  /** Two occurrences in one string whose ranges intersect witness that
      the two strings interfere. */
  lemma MeetingOccurrences(s: string, a: string, p: int, b: string, q: int)
    requires OccursAt(s, a, p) && OccursAt(s, b, q)
    requires p < q + |b| && q < p + |a|
    ensures Interferes(a, b)
  {
    if q <= p && p + |a| <= q + |b| {
      OccursInto(s, q, q + |b|, a, p);
      assert s[q..q + |b|] == b;
      ContainsSpec(b, a);
    } else if p <= q && q + |b| <= p + |a| {
      OccursInto(s, p, p + |a|, b, q);
      assert s[p..p + |a|] == a;
      ContainsSpec(a, b);
    } else if p < q {
      EdgeMeeting(s, a, p, b, q);
    } else {
      EdgeMeeting(s, b, q, a, p);
    }
  }

  /** An occurrence of `a` that ends strictly inside a later occurrence of
      `b` shows that a proper suffix of `a` is a prefix of `b`. */
  lemma EdgeMeeting(s: string, a: string, p: int, b: string, q: int)
    requires OccursAt(s, a, p) && OccursAt(s, b, q)
    requires p < q < p + |a| < q + |b|
    ensures SuffixMeetsPrefix(a, b)
  {
    var k := p + |a| - q;
    SliceOfSlice(s, p, p + |a|, |a| - k, |a|);
    SliceOfSlice(s, q, q + |b|, 0, k);
    assert a[|a| - k..] == b[..k];
  }

  /** An occurrence in `x + y + z` lies in `x`, lies in `z`, or meets the
      occurrence of `y` between them. */
  lemma OccursInParts(x: string, y: string, z: string, n: string, p: int)
    requires OccursAt(x + y + z, n, p)
    ensures OccursAt(x, n, p) || OccursAt(z, n, p - |x| - |y|) || Interferes(n, y)
  {
    var r := x + y + z;
    if p + |n| <= |x| {
      OccursInto(r, 0, |x|, n, p);
      assert r[0..|x|] == x;
    } else if p >= |x| + |y| {
      OccursInto(r, |x| + |y|, |r|, n, p);
      assert r[|x| + |y|..|r|] == z;
    } else {
      assert r[|x|..|x| + |y|] == y;
      MeetingOccurrences(r, n, p, y, |x|);
    }
  }

  /** Occurrences in `x` and in `z` are occurrences in `x + y + z`. */
  lemma OccursLift(x: string, y: string, z: string, n: string)
    ensures forall q :: OccursAt(x, n, q) ==> OccursAt(x + y + z, n, q)
    ensures forall q :: OccursAt(z, n, q) ==> OccursAt(x + y + z, n, |x| + |y| + q)
  {
    var r := x + y + z;
    assert r[0..|x|] == x;
    assert r[|x| + |y|..|r|] == z;
    forall q | OccursAt(x, n, q) ensures OccursAt(r, n, q) {
      OccursInSlice(r, 0, |x|, n, q);
    }
    forall q | OccursAt(z, n, q) ensures OccursAt(r, n, |x| + |y| + q) {
      OccursInSlice(r, |x| + |y|, |r|, n, q);
    }
  }

  /** One replacement step: `s` is its text before the first occurrence of
      `pat`, the occurrence, and the rest, which is replaced recursively. */
  lemma ReplaceStep(s: string, pat: string, rep: string)
    requires pat != "" && Index(s, pat) != -1
    ensures var i := Index(s, pat);
      && s == s[..i] + pat + s[i + |pat|..]
      && ReplaceAll(s, pat, rep) == s[..i] + rep + ReplaceAll(s[i + |pat|..], pat, rep)
  {
    var i := Index(s, pat);
    IndexSpec(s, pat);
    assert s[i..i + |pat|] == pat;
    assert s == s[..i] + s[i..i + |pat|] + s[i + |pat|..];
  }

  /** Replacing `pat` by a word that does not interfere with `n` creates no
      occurrence of `n`. */
  lemma {:induction false} ReplaceCreatesNothing(s: string, pat: string, rep: string, n: string)
    requires pat != "" && !Interferes(n, rep)
    ensures Contains(ReplaceAll(s, pat, rep), n) ==> Contains(s, n)
    decreases |s|
  {
    var i := Index(s, pat);
    if i != -1 && Contains(ReplaceAll(s, pat, rep), n) {
      var head, rest := s[..i], s[i + |pat|..];
      var tail := ReplaceAll(rest, pat, rep);
      ReplaceStep(s, pat, rep);
      ContainsSpec(head + rep + tail, n);
      var p :| OccursAt(head + rep + tail, n, p);
      OccursInParts(head, rep, tail, n, p);
      OccursLift(head, pat, rest, n);
      ContainsSpec(s, n);
      if !OccursAt(head, n, p) {
        ReplaceCreatesNothing(rest, pat, rep, n);
        ContainsSpec(tail, n);
        ContainsSpec(rest, n);
      }
    }
  }

  /** Replacing `pat` by a word that does not interfere with it removes
      every occurrence of `pat`. */
  lemma {:induction false} ReplaceRemoves(s: string, pat: string, rep: string)
    requires !Interferes(pat, rep)
    ensures !Contains(ReplaceAll(s, pat, rep), pat)
    decreases |s|
  {
    ContainsEmpty(rep);
    var i := Index(s, pat);
    IndexSpec(s, pat);
    ContainsSpec(ReplaceAll(s, pat, rep), pat);
    if i != -1 && Contains(ReplaceAll(s, pat, rep), pat) {
      var head, rest := s[..i], s[i + |pat|..];
      var tail := ReplaceAll(rest, pat, rep);
      ReplaceStep(s, pat, rep);
      var p :| OccursAt(head + rep + tail, pat, p);
      OccursInParts(head, rep, tail, pat, p);
      OccursLift(head, pat, rest, pat);
      if !OccursAt(head, pat, p) {
        ReplaceRemoves(rest, pat, rep);
        ContainsSpec(tail, pat);
      }
      assert false;
    }
  }

  /** Replacing `pat` keeps every occurrence of a string `n` that does not
      interfere with `pat`. */
  lemma {:induction false} ReplaceKeeps(s: string, pat: string, rep: string, n: string)
    requires !Interferes(n, pat)
    ensures Contains(s, n) ==> Contains(ReplaceAll(s, pat, rep), n)
    decreases |s|
  {
    ContainsEmpty(n);
    var i := Index(s, pat);
    if i != -1 && Contains(s, n) {
      var head, rest := s[..i], s[i + |pat|..];
      var tail := ReplaceAll(rest, pat, rep);
      ReplaceStep(s, pat, rep);
      ContainsSpec(s, n);
      var p :| OccursAt(head + pat + rest, n, p);
      OccursInParts(head, pat, rest, n, p);
      OccursLift(head, rep, tail, n);
      ContainsSpec(ReplaceAll(s, pat, rep), n);
      if !OccursAt(head, n, p) {
        ContainsSpec(rest, n);
        ReplaceKeeps(rest, pat, rep, n);
        ContainsSpec(tail, n);
      }
    }
  }

  // ---------------------------------------------------------------------
  // Trimming and splitting

  /** The pieces of `s` around the occurrences of `pat` that ReplaceAll
      replaces: the leftmost non-overlapping ones, scanning left to right. */
  function Pieces(s: string, pat: string): (parts: seq<string>)
    requires pat != ""
    ensures |parts| >= 1
    decreases |s|
  {
    var i := Index(s, pat);
    if i == -1 then [s] else [s[..i]] + Pieces(s[i + |pat|..], pat)
  }

  /** Lockstep substitution: `s` is its pieces joined by `pat`, no piece
      holds `pat`, and ReplaceAll joins the very same pieces by `rep`, so
      every replaced occurrence gets the same word and the text between
      occurrences is kept. */
  lemma {:induction false} ReplaceLockstep(s: string, pat: string, rep: string)
    requires pat != ""
    ensures Join(Pieces(s, pat), pat) == s
    ensures Join(Pieces(s, pat), rep) == ReplaceAll(s, pat, rep)
    ensures forall k :: 0 <= k < |Pieces(s, pat)| ==> !Contains(Pieces(s, pat)[k], pat)
    decreases |s|
  {
    PiecesRebuild(s, pat);
    var i := Index(s, pat);
    if i != -1 {
      var head, rest := s[..i], s[i + |pat|..];
      ReplaceLockstep(rest, pat, rep);
      ReplaceStep(s, pat, rep);
      JoinCons(head, Pieces(rest, pat), rep);
    }
  }

  /** `s` is its pieces joined by `pat`, and no piece holds `pat`. */
  lemma {:induction false} PiecesRebuild(s: string, pat: string)
    requires pat != ""
    ensures Join(Pieces(s, pat), pat) == s
    ensures forall k :: 0 <= k < |Pieces(s, pat)| ==> !Contains(Pieces(s, pat)[k], pat)
    decreases |s|
  {
    var i := Index(s, pat);
    if i == -1 {
      IndexSpec(s, pat);
      ContainsSpec(s, pat);
    } else {
      var head, rest := s[..i], s[i + |pat|..];
      PiecesRebuild(rest, pat);
      ReplaceStep(s, pat, pat);
      JoinCons(head, Pieces(rest, pat), pat);
      HeadFree(s, pat);
      PiecesFreeStep(head, Pieces(rest, pat), pat);
    }
  }

  /** A free head in front of free pieces gives free pieces. */
  lemma PiecesFreeStep(head: string, ps: seq<string>, pat: string)
    requires !Contains(head, pat)
    requires forall k :: 0 <= k < |ps| ==> !Contains(ps[k], pat)
    ensures forall k :: 0 <= k < |[head] + ps| ==> !Contains(([head] + ps)[k], pat)
  {
    forall k | 0 <= k < |[head] + ps| ensures !Contains(([head] + ps)[k], pat) {
      if k > 0 {
        assert ([head] + ps)[k] == ps[k - 1];
      }
    }
  }

  /** Joining a head in front of at least one part puts one separator
      after the head. */
  lemma JoinCons(head: string, parts: seq<string>, sep: string)
    requires |parts| >= 1
    ensures Join([head] + parts, sep) == head + sep + Join(parts, sep)
  {
    assert ([head] + parts)[1..] == parts;
  }

  /** The text before the first occurrence of `pat` holds no `pat`. */
  lemma HeadFree(s: string, pat: string)
    requires pat != "" && Index(s, pat) != -1
    ensures !Contains(s[..Index(s, pat)], pat)
  {
    var i := Index(s, pat);
    IndexSpec(s, pat);
    forall j | 0 <= j && j + |pat| <= i ensures OccursAt(s[..i], pat, j) ==> OccursAt(s, pat, j) {
      SliceOfSlice(s, 0, i, j, j + |pat|);
    }
  }

  /** `pat` written after `p` is the first occurrence of `pat` in `p + pat`:
      no occurrence starts inside `p`. */
  predicate FirstAfter(p: string, pat: string)
  {
    forall r :: 0 <= r < |p| ==> !OccursAt(p + pat, pat, r)
  }

  /** A piece that does not interfere with `pat` is never eaten into by
      the `pat` after it. */
  lemma FirstAfterOfSeparate(p: string, pat: string)
    requires !Interferes(p, pat)
    ensures FirstAfter(p, pat)
  {
    ContainsEmpty(p);
    var s := p + pat;
    assert OccursAt(s, p, 0) by {
      assert s[0..|p|] == p;
    }
    forall r | 0 <= r < |p| ensures !OccursAt(s, pat, r) {
      if OccursAt(s, pat, r) {
        MeetingOccurrences(s, p, 0, pat, r);
        assert false;
      }
    }
  }

  /** The first occurrence of `pat` in `p + pat + rest` is the one after `p`. */
  lemma IndexAfter(p: string, pat: string, rest: string)
    requires pat != "" && FirstAfter(p, pat)
    ensures Index(p + pat + rest, pat) == |p|
  {
    var s := p + pat + rest;
    IndexSpec(s, pat);
    assert OccursAt(s, pat, |p|) by {
      assert s[|p|..|p| + |pat|] == pat;
    }
    forall r | 0 <= r < |p| ensures !OccursAt(s, pat, r) {
      assert !OccursAt(p + pat, pat, r);
    }

  }

  /** Pieces that `pat` cannot eat into, joined by `pat`, split back into
      the same pieces. */
  lemma {:induction false} PiecesOfJoin(parts: seq<string>, pat: string)
    requires pat != "" && |parts| >= 1
    requires forall k :: 0 <= k < |parts| - 1 ==> FirstAfter(parts[k], pat)
    requires !Contains(parts[|parts| - 1], pat)
    ensures Pieces(Join(parts, pat), pat) == parts
    decreases |parts|
  {
    if |parts| == 1 {
      ContainsSpec(parts[0], pat);
    } else {
      var p, rest := parts[0], Join(parts[1..], pat);
      PiecesOfJoin(parts[1..], pat);
      IndexAfter(p, pat, rest);
      var s := p + pat + rest;
      assert s[..|p|] == p;
      assert s[|p| + |pat|..] == rest;
      assert [p] + parts[1..] == parts;
    }
  }

  /** The same word replaces every occurrence in a text written as pieces
      around `pat`: `a + m + b + m + c` becomes `a + w + b + w + c`. */
  lemma ReplaceJoin(parts: seq<string>, pat: string, rep: string)
    requires pat != "" && |parts| >= 1
    requires forall k :: 0 <= k < |parts| - 1 ==> FirstAfter(parts[k], pat)
    requires !Contains(parts[|parts| - 1], pat)
    ensures ReplaceAll(Join(parts, pat), pat, rep) == Join(parts, rep)
  {
    PiecesOfJoin(parts, pat);
    ReplaceLockstep(Join(parts, pat), pat, rep);
  }

  /** unicode.IsSpace: the ASCII white space, NEL, NO-BREAK SPACE and the
      other characters with Unicode's White_Space property. */
  predicate IsSpace(c: char)
  {
    || c == ' ' || c == '\t' || c == '\n' || c == '\U{000B}' || c == '\U{000C}' || c == '\r'
    || c == '\U{0085}' || c == '\U{00A0}' || c == '\U{1680}'
    || ('\U{2000}' <= c <= '\U{200A}')
    || c == '\U{2028}' || c == '\U{2029}' || c == '\U{202F}' || c == '\U{205F}' || c == '\U{3000}'
  }

  /** `s` neither starts nor ends with white space. */
  predicate Trimmed(s: string)
  {
    s == [] || (!IsSpace(s[0]) && !IsSpace(s[|s| - 1]))
  }

  /** Leading white space removed (TrimLeftSpec). */
  function TrimLeft(s: string): string
  {
    if s != [] && IsSpace(s[0]) then TrimLeft(s[1..]) else s
  }

  /** The result of TrimLeft is a suffix of `s` that does not start with
      white space. */
  lemma {:induction false} TrimLeftSpec(s: string)
    ensures var r := TrimLeft(s);
      && |r| <= |s| && r == s[|s| - |r|..]
      && (r != [] ==> !IsSpace(r[0]))
  {
    if s != [] && IsSpace(s[0]) {
      TrimLeftSpec(s[1..]);
      var r := TrimLeft(s[1..]);
      assert s[1..][|s| - 1 - |r|..] == s[|s| - |r|..];
    }
  }

  /** What TrimLeft cuts away is white space. */
  lemma {:induction false} TrimLeftCutsSpace(s: string)
    ensures forall k :: 0 <= k < |s| - |TrimLeft(s)| ==> IsSpace(s[k])
  {
    if s != [] && IsSpace(s[0]) {
      TrimLeftCutsSpace(s[1..]);
    }
  }

  /** Trailing white space removed (TrimRightSpec). */
  function TrimRight(s: string): string
  {
    if s != [] && IsSpace(s[|s| - 1]) then TrimRight(s[..|s| - 1]) else s
  }

  /** The result of TrimRight is a prefix of `s` that does not end with
      white space. */
  lemma {:induction false} TrimRightSpec(s: string)
    ensures var r := TrimRight(s);
      && |r| <= |s| && r == s[..|r|]
      && (r != [] ==> !IsSpace(r[|r| - 1]))
  {
    if s != [] && IsSpace(s[|s| - 1]) {
      TrimRightSpec(s[..|s| - 1]);
      var r := TrimRight(s[..|s| - 1]);
      assert s[..|s| - 1][..|r|] == s[..|r|];
    }
  }

  /** What TrimRight cuts away is white space. */
  lemma {:induction false} TrimRightCutsSpace(s: string)
    ensures forall k :: |TrimRight(s)| <= k < |s| ==> IsSpace(s[k])
  {
    if s != [] && IsSpace(s[|s| - 1]) {
      TrimRightCutsSpace(s[..|s| - 1]);
      TrimRightSpec(s[..|s| - 1]);
    }
  }

  /** strings.TrimSpace. */
  function TrimSpace(s: string): string
  {
    TrimRight(TrimLeft(s))
  }

  /** TrimSpace yields a trimmed slice of its input. */
  lemma TrimSpaceSpec(s: string)
    ensures Trimmed(TrimSpace(s))
    ensures exists a, b :: 0 <= a <= b <= |s| && s[a..b] == TrimSpace(s)
  {
    TrimSpaceTrimmed(s);
    TrimSpaceSlice(s);
  }

  /** TrimSpace leaves no white space at either end. */
  lemma TrimSpaceTrimmed(s: string)
    ensures Trimmed(TrimSpace(s))
  {
    var l := TrimLeft(s);
    var r := TrimRight(l);
    TrimLeftSpec(s);
    TrimRightSpec(l);
    if r != [] {
      assert r[0] == l[0];
    }
  }

  /** TrimSpace returns a piece of its input. */
  lemma TrimSpaceSlice(s: string)
    ensures exists a, b :: 0 <= a <= b <= |s| && s[a..b] == TrimSpace(s)
  {
    var l := TrimLeft(s);
    var r := TrimRight(l);
    TrimLeftSpec(s);
    TrimRightSpec(l);
    var a := |s| - |l|;
    SliceOfSlice(s, a, |s|, 0, |r|);
    assert s[a..a + |r|] == r;
  }

  /** What TrimSpace keeps of a string without the character `c` has no `c`. */
  lemma TrimSpaceAvoids(s: string, c: char)
    requires c !in s
    ensures c !in TrimSpace(s)
  {
    TrimSpaceSpec(s);
    var r := TrimSpace(s);
    var a, b :| 0 <= a <= b <= |s| && s[a..b] == r;
  }

  /** TrimSpace leaves a trimmed string as it is. */
  lemma TrimSpaceOfTrimmed(s: string)
    requires Trimmed(s)
    ensures TrimSpace(s) == s
  {
    assert TrimLeft(s) == s;
  }

  /** A trimmed string is exactly one that TrimSpace leaves unchanged. */
  lemma TrimmedIsFixed(s: string)
    ensures Trimmed(s) <==> TrimSpace(s) == s
  {
    TrimSpaceTrimmed(s);
    if Trimmed(s) {
      TrimSpaceOfTrimmed(s);
    }
  }

  /** strings.Split with a one-character separator: the pieces between
      the separators, always at least one. */
  function Split(s: string, sep: char): (parts: seq<string>)
    ensures |parts| >= 1
  {
    if s == [] then [""]
    else
      var rest := Split(s[1..], sep);
      if s[0] == sep then [""] + rest
      else [[s[0]] + rest[0]] + rest[1..]
  }

  /** No piece holds the separator. */
  lemma {:induction false} SplitPartsFree(s: string, sep: char)
    ensures forall k :: 0 <= k < |Split(s, sep)| ==> sep !in Split(s, sep)[k]
    decreases |s|
  {
    if s != [] {
      SplitPartsFree(s[1..], sep);
    }
  }

  /** strings.Join: the parts with `sep` between consecutive ones. */
  function Join(parts: seq<string>, sep: string): string
  {
    if |parts| == 0 then ""
    else if |parts| == 1 then parts[0]
    else parts[0] + sep + Join(parts[1..], sep)
  }

  /** Joining the pieces gives back the string that was split. */
  lemma {:induction false} JoinSplit(s: string, sep: char)
    ensures Join(Split(s, sep), [sep]) == s
  {
    if s != [] {
      JoinSplit(s[1..], sep);
      var rest := Split(s[1..], sep);
      if s[0] != sep {
        var parts := [[s[0]] + rest[0]] + rest[1..];
        if |rest| > 1 {
          assert parts[1..] == rest[1..];
          assert Join(rest, [sep]) == rest[0] + [sep] + Join(rest[1..], [sep]);
        }
      }
    }
  }

  /** A piece without the separator, followed by a separator, splits off
      as the first part. */
  lemma {:induction false} SplitFirstPart(p: string, rest: string, sep: char)
    requires sep !in p
    ensures Split(p + [sep] + rest, sep) == [p] + Split(rest, sep)
    decreases |p|
  {
    if p == [] {
      assert ([] + [sep] + rest)[1..] == rest;
    } else {
      assert (p + [sep] + rest)[1..] == p[1..] + [sep] + rest;
      SplitFirstPart(p[1..], rest, sep);
      assert [p[0]] + p[1..] == p;
    }
  }

  /** A string without the separator is one piece. */
  lemma {:induction false} SplitWhole(p: string, sep: char)
    requires sep !in p
    ensures Split(p, sep) == [p]
    decreases |p|
  {
    if p != [] {
      SplitWhole(p[1..], sep);
      assert [p[0]] + p[1..] == p;
    }
  }

  /** Splitting a join of separator-free pieces gives the pieces back. */
  lemma {:induction false} SplitJoin(parts: seq<string>, sep: char)
    requires |parts| >= 1
    requires forall k :: 0 <= k < |parts| ==> sep !in parts[k]
    ensures Split(Join(parts, [sep]), sep) == parts
    decreases |parts|
  {
    if |parts| == 1 {
      SplitWhole(parts[0], sep);
    } else {
      var tail := Join(parts[1..], [sep]);
      assert Join(parts, [sep]) == parts[0] + [sep] + tail;
      SplitJoin(parts[1..], sep);
      SplitFirstPart(parts[0], tail, sep);
    }
  }
}
