/** The command-line side of the tool that is more than flag wiring: the
    comma-separated option lists, the `-w path:MARKER` binding, and the
    clean-up of wordlist lines. */
module Options {
  import opened Wrappers
  import opened GoStrings
  import opened GoStrconv

  // ---------------------------------------------------------------------
  // Lists of words

  /** The trimmed parts that are not empty, in order. */
  function KeepTrimmed(parts: seq<string>): seq<string>
  {
    if |parts| == 0 then []
    else
      var p := TrimSpace(parts[|parts| - 1]);
      KeepTrimmed(parts[..|parts| - 1]) + (if p != "" then [p] else [])
  }

  /** What is kept is trimmed and not empty, and is no more than was given. */
  lemma {:induction false} KeepTrimmedElements(parts: seq<string>)
    ensures |KeepTrimmed(parts)| <= |parts|
    ensures forall k :: 0 <= k < |KeepTrimmed(parts)| ==>
      KeepTrimmed(parts)[k] != "" && Trimmed(KeepTrimmed(parts)[k])
    decreases |parts|
  {
    if |parts| > 0 {
      KeepTrimmedElements(parts[..|parts| - 1]);
      TrimSpaceSpec(parts[|parts| - 1]);
    }
  }

  /** Filtering a concatenation filters each half: the kept parts stay in
      input order. */
  lemma {:induction false} KeepTrimmedAppend(a: seq<string>, b: seq<string>)
    ensures KeepTrimmed(a + b) == KeepTrimmed(a) + KeepTrimmed(b)
    decreases |b|
  {
    if |b| > 0 {
      var front, p := b[..|b| - 1], TrimSpace(b[|b| - 1]);
      var extra := if p != "" then [p] else [];
      assert (a + b)[..|a + b| - 1] == a + front;
      assert (a + b)[|a + b| - 1] == b[|b| - 1];
      assert KeepTrimmed(a + b) == KeepTrimmed(a + front) + extra;
      KeepTrimmedAppend(a, front);
      assert KeepTrimmed(b) == KeepTrimmed(front) + extra;
    } else {
      assert a + b == a;
    }
  }

  /** A kept string is the trimming of some part. */
  lemma {:induction false} KeepTrimmedSound(parts: seq<string>, x: string)
    requires x in KeepTrimmed(parts)
    ensures x != "" && exists k :: 0 <= k < |parts| && TrimSpace(parts[k]) == x
    decreases |parts|
  {
    var n := |parts|;
    var front, last := parts[..n - 1], TrimSpace(parts[n - 1]);
    assert KeepTrimmed(parts) == KeepTrimmed(front) + (if last != "" then [last] else []);
    if x in KeepTrimmed(front) {
      KeepTrimmedSound(front, x);
      var k :| 0 <= k < |front| && TrimSpace(front[k]) == x;
      assert parts[k] == front[k];
    }
  }

  /** Every part that does not trim to nothing is kept, trimmed. */
  lemma {:induction false} KeepTrimmedComplete(parts: seq<string>, k: nat)
    requires k < |parts| && TrimSpace(parts[k]) != ""
    ensures TrimSpace(parts[k]) in KeepTrimmed(parts)
    decreases |parts|
  {
    var n := |parts|;
    var front, last := parts[..n - 1], TrimSpace(parts[n - 1]);
    assert KeepTrimmed(parts) == KeepTrimmed(front) + (if last != "" then [last] else []);
    if k < n - 1 {
      assert front[k] == parts[k];
      KeepTrimmedComplete(front, k);
    }
  }

  /** A string is kept exactly when it is the non-empty trimming of some part. */
  lemma KeepTrimmedMembers(parts: seq<string>, x: string)
    ensures x in KeepTrimmed(parts) <==>
            x != "" && exists k :: 0 <= k < |parts| && TrimSpace(parts[k]) == x
  {
    if x in KeepTrimmed(parts) {
      KeepTrimmedSound(parts, x);
    }
    if x != "" && exists k :: 0 <= k < |parts| && TrimSpace(parts[k]) == x {
      var k :| 0 <= k < |parts| && TrimSpace(parts[k]) == x;
      KeepTrimmedComplete(parts, k);
    }
  }


  /** Parts that are already trimmed and non-empty are all kept. */
  lemma {:induction false} KeepTrimmedClean(parts: seq<string>)
    requires forall k :: 0 <= k < |parts| ==> parts[k] != "" && Trimmed(parts[k])
    ensures KeepTrimmed(parts) == parts
    decreases |parts|
  {
    if |parts| > 0 {
      var n := |parts|;
      KeepTrimmedClean(parts[..n - 1]);
      TrimSpaceOfTrimmed(parts[n - 1]);
      assert parts[..n - 1] + [parts[n - 1]] == parts;
    }
  }

  /** Filtering twice is filtering once. */
  lemma KeepTrimmedIdempotent(parts: seq<string>)
    ensures KeepTrimmed(KeepTrimmed(parts)) == KeepTrimmed(parts)
  {
    KeepTrimmedElements(parts);
    KeepTrimmedClean(KeepTrimmed(parts));
  }

  /** Filtering keeps out a character that no part contains. */
  lemma {:induction false} KeepTrimmedAvoids(parts: seq<string>, c: char)
    requires forall k :: 0 <= k < |parts| ==> c !in parts[k]
    ensures forall k :: 0 <= k < |KeepTrimmed(parts)| ==> c !in KeepTrimmed(parts)[k]
    decreases |parts|
  {
    if |parts| > 0 {
      KeepTrimmedAvoids(parts[..|parts| - 1], c);
      TrimSpaceAvoids(parts[|parts| - 1], c);
    }
  }

  /** What parseStringList returns. */
  function StringList(s: string): seq<string>
  {
    if s == "" then [] else KeepTrimmed(Split(s, ','))
  }

  /** parseStringList: split at the commas, trim, drop the empty parts. */
  method ParseStringList(s: string) returns (result: seq<string>)
    ensures result == StringList(s)
  {
    if s == "" {
      return [];
    }
    var parts := Split(s, ',');
    result := [];
    var i := 0;
    while i < |parts|
      invariant i <= |parts|
      invariant result == KeepTrimmed(parts[..i])
    {
      var p := TrimSpace(parts[i]);
      assert parts[..i + 1][..i] == parts[..i];
      if p != "" {
        result := result + [p];
      }
      i := i + 1;
    }
    assert parts[..i] == parts;
  }

  /** Every listed word is non-empty, trimmed and free of commas. */
  lemma StringListElements(s: string)
    ensures forall k :: 0 <= k < |StringList(s)| ==>
      StringList(s)[k] != "" && Trimmed(StringList(s)[k]) && ',' !in StringList(s)[k]
  {
    if s != "" {
      KeepTrimmedElements(Split(s, ','));
      SplitPartsFree(s, ',');
      KeepTrimmedAvoids(Split(s, ','), ',');
    }
  }

  /** A list of non-empty, trimmed, comma-free words written with commas
      is read back as the same list. */
  lemma StringListJoin(words: seq<string>)
    requires |words| >= 1
    requires forall k :: 0 <= k < |words| ==> words[k] != "" && Trimmed(words[k]) && ',' !in words[k]
    ensures StringList(Join(words, ",")) == words
  {
    assert |Join(words, ",")| >= |words[0]|;
    SplitJoin(words, ',');
    KeepTrimmedClean(words);
  }

  /** The line filter of readLines: each line trimmed, the blank ones
      dropped. */
  method FilterLines(lines: seq<string>) returns (kept: seq<string>)
    ensures kept == KeepTrimmed(lines)
  {
    kept := [];
    var i := 0;
    while i < |lines|
      invariant i <= |lines|
      invariant kept == KeepTrimmed(lines[..i])
    {
      var text := TrimSpace(lines[i]);
      assert lines[..i + 1][..i] == lines[..i];
      if text != "" {
        kept := kept + [text];
      }
      i := i + 1;
    }
    assert lines[..i] == lines;
  }

  // ---------------------------------------------------------------------
  // Lists of integers

  /** The trimmed parts that Atoi accepts, as their values, in order. */
  function KeepInts(parts: seq<string>): seq<int>
  {
    if |parts| == 0 then []
    else
      KeepInts(parts[..|parts| - 1])
      + match Atoi(TrimSpace(parts[|parts| - 1]))
        case Some(v) => [v]
        case None => []
  }

  /** Every kept value is an int, and there are no more values than parts. */
  lemma {:induction false} KeepIntsInRange(parts: seq<string>)
    ensures |KeepInts(parts)| <= |parts|
    ensures forall k :: 0 <= k < |KeepInts(parts)| ==> InInt64(KeepInts(parts)[k])
    decreases |parts|
  {
    if |parts| > 0 {
      KeepIntsInRange(parts[..|parts| - 1]);
    }
  }

  /** A kept value comes from some part. */
  lemma {:induction false} KeepIntsSound(parts: seq<string>, v: int)
    requires v in KeepInts(parts)
    ensures exists k :: 0 <= k < |parts| && Atoi(TrimSpace(parts[k])) == Some(v)
    decreases |parts|
  {
    var n := |parts|;
    var front := parts[..n - 1];
    var extra := match Atoi(TrimSpace(parts[n - 1])) case Some(w) => [w] case None => [];
    assert KeepInts(parts) == KeepInts(front) + extra;
    if v in KeepInts(front) {
      KeepIntsSound(front, v);
      var k :| 0 <= k < |front| && Atoi(TrimSpace(front[k])) == Some(v);
      assert parts[k] == front[k];
    } else {
      assert Atoi(TrimSpace(parts[n - 1])) == Some(v);
    }
  }

  /** The value of every part that reads as an int is kept. */
  lemma {:induction false} KeepIntsComplete(parts: seq<string>, v: int, k: nat)
    requires k < |parts| && Atoi(TrimSpace(parts[k])) == Some(v)
    ensures v in KeepInts(parts)
    decreases |parts|
  {
    var n := |parts|;
    var front := parts[..n - 1];
    var extra := match Atoi(TrimSpace(parts[n - 1])) case Some(w) => [w] case None => [];
    assert KeepInts(parts) == KeepInts(front) + extra;
    if k < n - 1 {
      assert front[k] == parts[k];
      KeepIntsComplete(front, v, k);
    }
  }

  /** A value is kept exactly when some part trims to a text Atoi reads as it. */
  lemma KeepIntsMembers(parts: seq<string>, v: int)
    ensures v in KeepInts(parts) <==>
            exists k :: 0 <= k < |parts| && Atoi(TrimSpace(parts[k])) == Some(v)
  {
    if v in KeepInts(parts) {
      KeepIntsSound(parts, v);
    }
    if exists k :: 0 <= k < |parts| && Atoi(TrimSpace(parts[k])) == Some(v) {
      var k :| 0 <= k < |parts| && Atoi(TrimSpace(parts[k])) == Some(v);
      KeepIntsComplete(parts, v, k);
    }
  }



  /** What parseIntList returns. */
  function IntList(s: string): seq<int>
  {
    if s == "" then [] else KeepInts(Split(s, ','))
  }

  /** parseIntList: split at the commas, trim, keep what Atoi accepts. */
  method ParseIntList(s: string) returns (result: seq<int>)
    ensures result == IntList(s)
  {
    if s == "" {
      return [];
    }
    var parts := Split(s, ',');
    result := [];
    var i := 0;
    while i < |parts|
      invariant i <= |parts|
      invariant result == KeepInts(parts[..i])
    {
      var p := TrimSpace(parts[i]);
      var parsed := Atoi(p);
      assert parts[..i + 1][..i] == parts[..i];
      if parsed.Some? {
        result := result + [parsed.value];
      }
      i := i + 1;
    }
    assert parts[..i] == parts;
  }

  /** The decimal texts of a list of numbers. */
  function Formats(xs: seq<int>): (texts: seq<string>)
    ensures |texts| == |xs|
  {
    if |xs| == 0 then [] else Formats(xs[..|xs| - 1]) + [FormatInt(xs[|xs| - 1])]
  }

  /** Text k is the decimal text of number k. */
  lemma {:induction false} FormatsAt(xs: seq<int>, k: nat)
    requires k < |xs|
    ensures Formats(xs)[k] == FormatInt(xs[k])
    decreases |xs|
  {
    if k < |xs| - 1 {
      FormatsAt(xs[..|xs| - 1], k);
    }
  }

  /** Itoa writes a trimmed text without commas. */
  lemma FormatIntClean(n: int)
    ensures Trimmed(FormatInt(n)) && ',' !in FormatInt(n)
  {
    var d := FormatNat(if n < 0 then -n else n);
    assert IsDigit(d[0]) && IsDigit(d[|d| - 1]);
    if n < 0 {
      assert FormatInt(n) == "-" + d;
    }
  }

  /** The text Itoa writes for an int survives trimming and reads back. */
  lemma ReadsBack(n: int)
    requires InInt64(n)
    ensures Atoi(TrimSpace(FormatInt(n))) == Some(n)
  {
    FormatIntClean(n);
    TrimSpaceOfTrimmed(FormatInt(n));
    AtoiFormatInt(n);
  }

  /** A non-empty sequence is its front and its last element. */
  lemma LastSplit<T>(s: seq<T>)
    requires |s| > 0
    ensures s[..|s| - 1] + [s[|s| - 1]] == s
  {
  }

  /** One more part that reads as `v` adds `v` at the end. */
  lemma KeepIntsStep(parts: seq<string>, v: int)
    requires |parts| > 0 && Atoi(TrimSpace(parts[|parts| - 1])) == Some(v)
    ensures KeepInts(parts) == KeepInts(parts[..|parts| - 1]) + [v]
  {
  }

  /** Numbers written with commas are read back as the same list. */
  lemma {:induction false} KeepIntsFormats(xs: seq<int>)
    requires forall k :: 0 <= k < |xs| ==> InInt64(xs[k])
    ensures KeepInts(Formats(xs)) == xs
    decreases |xs|
  {
    if |xs| > 0 {
      var n := |xs|;
      var texts := Formats(xs);
      assert texts[..n - 1] == Formats(xs[..n - 1]);
      assert texts[n - 1] == FormatInt(xs[n - 1]);
      KeepIntsFormats(xs[..n - 1]);
      ReadsBack(xs[n - 1]);
      KeepIntsStep(texts, xs[n - 1]);
      LastSplit(xs);
    }
  }

  /** parseIntList reads back any non-empty list of ints written with
      commas. */
  lemma IntListJoin(xs: seq<int>)
    requires |xs| >= 1
    requires forall k :: 0 <= k < |xs| ==> InInt64(xs[k])
    ensures IntList(Join(Formats(xs), ",")) == xs
  {
    var texts := Formats(xs);
    forall k | 0 <= k < |texts| ensures ',' !in texts[k] {
      FormatsAt(xs, k);
      FormatIntClean(xs[k]);
    }
    assert |Join(texts, ",")| >= |texts[0]|;
    SplitJoin(texts, ',');
    KeepIntsFormats(xs);
  }

  // ---------------------------------------------------------------------
  // The -w flag

  /** strings.SplitN(value, ":", 2): the text around the first colon, or
      the whole value when there is none. */
  function SplitColon(value: string): (parts: seq<string>)
    ensures 1 <= |parts| <= 2
  {
    var i := Index(value, ":");
    if i == -1 then [value] else [value[..i], value[i + 1..]]
  }

  /** The (marker, path) pair that one `-w` value adds. */
  function Binding(value: string): (string, string)
  {
    var parts := SplitColon(value);
    if |parts| == 2 then (parts[1], parts[0]) else ("WL1", value)
  }

  /** A one-character string occurs exactly where that character stands. */
  lemma OccursAtChar(s: string, c: char, i: int)
    ensures OccursAt(s, [c], i) <==> 0 <= i < |s| && s[i] == c
  {
    if 0 <= i < |s| {
      assert s[i..i + 1] == [s[i]];
    }
  }

  /** A value without a colon is a path bound to WL1. */
  lemma BindingWithoutColon(value: string)
    requires ':' !in value
    ensures Binding(value) == ("WL1", value)
  {
    IndexSpec(value, ":");
    OccursAtChar(value, ':', Index(value, ":"));
  }

  /** A value with a colon binds the text after its first colon to the
      text before it. */
  lemma BindingAtFirstColon(value: string)
    requires ':' in value
    ensures exists i :: 0 <= i < |value| && value[i] == ':' && ':' !in value[..i]
                        && Binding(value) == (value[i + 1..], value[..i])
  {
    IndexSpec(value, ":");
    var j :| 0 <= j < |value| && value[j] == ':';
    OccursAtChar(value, ':', j);
    var i := Index(value, ":");
    OccursAtChar(value, ':', i);
    forall k | 0 <= k < i ensures value[..i][k] != ':' {
      OccursAtChar(value, ':', k);
    }
  }

  /** `path:MARKER` with a colon-free path binds MARKER to path, whatever
      colons MARKER holds. */
  lemma BindingOfPair(path: string, marker: string)
    requires ':' !in path
    ensures Binding(path + ":" + marker) == (marker, path)
  {
    var value := path + ":" + marker;
    assert value[|path|] == ':';
    BindingAtFirstColon(value);
    var i :| 0 <= i < |value| && value[i] == ':' && ':' !in value[..i]
             && Binding(value) == (value[i + 1..], value[..i]);
    assert value[..|path|] == path;
    assert value[|path| + 1..] == marker;
  }

  /** The `-w` flag: the marker-to-path bindings given so far. */
  class WordlistFlag {
    var bindings: map<string, string>

    constructor()
      ensures bindings == map[]
    {
      bindings := map[];
    }

    /** wordlistFlag.Set: bind the marker of one `-w` value to its path,
        replacing an earlier binding of the same marker. */
    method Set(value: string)
      modifies this
      ensures bindings == old(bindings)[Binding(value).0 := Binding(value).1]
      ensures forall m :: m in old(bindings) && m != Binding(value).0 ==>
                m in bindings && bindings[m] == old(bindings)[m]
    {
      var parts := SplitColon(value);
      if |parts| == 2 {
        bindings := bindings[parts[1] := parts[0]];
      } else {
        bindings := bindings["WL1" := value];
      }
    }
  }
}
