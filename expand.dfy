/** Recursive expansion of a target template against named wordlists
    (generateTargets) and the marker test that chooses between it and the
    compatibility builders. */
module Expansion {
  import opened GoStrings

  /** The words loaded for one marker, in file order. */
  datatype Wordlist = Wordlist(marker: string, words: seq<string>)

  /** The marker table. The source keeps it in a Go map and takes whichever
      occurring marker its map iteration meets first; the model fixes that
      order as the order of this sequence. */
  type Table = seq<Wordlist>

  /** `w` cannot meet any non-empty marker name of `table`. */
  predicate FitsTable(w: string, table: Table)
  {
    forall k {:trigger Interferes(table[k].marker, w)} ::
      0 <= k < |table| && table[k].marker != "" ==> !Interferes(table[k].marker, w)
  }

  /** No word of any list can meet a non-empty marker name, so substituting
      a word removes the marker it replaces and creates no other one.
      Without this the source's recursion need not terminate. */
  predicate WordsSeparate(table: Table)
  {
    forall k, i {:trigger FitsTable(table[k].words[i], table)} ::
      0 <= k < |table| && 0 <= i < |table[k].words| ==> FitsTable(table[k].words[i], table)
  }

  /** A word that shares no edge with the marker fits: `admin` can stand
      for `WL1`. */
  lemma AdminFits()
    ensures FitsTable("admin", [Wordlist("WL1", [])])
  {
    var m, w := "WL1", "admin";
    MissingFirst(w, m);
    assert !SuffixMeetsPrefix(m, w) by {
      forall k | 0 < k < |m| && k < |w| ensures m[|m| - k..] != w[..k] {
        assert m[|m| - k..][0] != w[..k][0];
      }
    }
    assert !SuffixMeetsPrefix(w, m) by {
      forall k | 0 < k < |w| && k < |m| ensures w[|w| - k..] != m[..k] {
        assert w[|w| - k..][k - 1] != m[..k][k - 1];
      }
    }
    assert !Interferes(m, w);
  }

  /** A word meets `WL1` at an edge when it ends with a proper prefix of
      the marker (`NEW`: its `W` can begin a `WL1` written after it) or
      starts with a proper suffix of it (`1password`: its `1` can end a
      `WL1` written before it), so neither fits. */
  lemma EdgeWordsMeetMarker()
    ensures !FitsTable("NEW", [Wordlist("WL1", [])])
    ensures !FitsTable("1password", [Wordlist("WL1", [])])
  {
    var table := [Wordlist("WL1", [])];
    assert "NEW"[2..] == "WL1"[..1];
    assert Interferes(table[0].marker, "NEW");
    assert "WL1"[2..] == "1password"[..1];
    assert Interferes(table[0].marker, "1password");
  }

  /** Every marker name is non-empty. */
  predicate MarkersNamed(table: Table)
  {
    forall k :: 0 <= k < |table| ==> table[k].marker != ""
  }

  /** Marker names are non-empty and no two of them can meet in a template
      (in particular they are distinct, as the keys of a map are). */
  predicate MarkersSeparate(table: Table)
  {
    && MarkersNamed(table)
    && forall j, k {:trigger Interferes(table[j].marker, table[k].marker)} :: 0 <= j < |table| && 0 <= k < |table| && j != k ==>
         !Interferes(table[j].marker, table[k].marker)
  }

  /** `x` contains no marker name of `table`. */
  predicate MarkerFree(x: string, table: Table)
  {
    forall k {:trigger Contains(x, table[k].marker)} :: 0 <= k < |table| ==> !Contains(x, table[k].marker)
  }

  /** The entries whose marker occurs in `t`. */
  function Occurring(t: string, table: Table): set<nat>
  {
    set k: nat | k < |table| && Contains(t, table[k].marker)
  }

  /** How many entries have a marker that occurs in `t`: the measure that
      the recursion decreases. */
  function Present(t: string, table: Table): nat
  {
    |Occurring(t, table)|
  }

  lemma {:induction false} SubsetCard(a: set<nat>, c: set<nat>)
    requires a <= c
    ensures |a| <= |c|
    decreases |a|
  {
    if a != {} {
      var y :| y in a;
      SubsetCard(a - {y}, c - {y});
    }
  }

  lemma SubsetSmaller(a: set<nat>, b: set<nat>, x: nat)
    requires a <= b && x in b && x !in a
    ensures |a| < |b|
  {
    SubsetCard(a, b - {x});
  }

  /** The index of the first entry whose marker occurs in `t`, or `|table|`. */
  function FirstMatch(t: string, table: Table): (j: nat)
    ensures j <= |table|
    ensures j < |table| ==> Contains(t, table[j].marker)
    ensures forall k {:trigger Contains(t, table[k].marker)} :: 0 <= k < j ==> !Contains(t, table[k].marker)
  {
    if table == [] then 0
    else if Contains(t, table[0].marker) then 0
    else 1 + FirstMatch(t, table[1..])
  }

  /** Substituting a word for an occurring marker strictly shrinks the set
      of markers that occur: the measure of the recursion. */
  lemma PresentShrinks(t: string, table: Table, j: nat, i: nat)
    requires WordsSeparate(table)
    requires j < |table| && table[j].marker != "" && Contains(t, table[j].marker)
    requires i < |table[j].words|
    ensures Present(ReplaceAll(t, table[j].marker, table[j].words[i]), table) < Present(t, table)
  {
    var m, w := table[j].marker, table[j].words[i];
    var u := ReplaceAll(t, m, w);
    assert FitsTable(w, table);
    forall k | k in Occurring(u, table) ensures k in Occurring(t, table) {
      if table[k].marker == "" {
        ContainsEmpty(t);
      } else {
        ReplaceCreatesNothing(t, m, w, table[k].marker);
      }
    }
    ReplaceRemoves(t, m, w);
    SubsetSmaller(Occurring(u, table), Occurring(t, table), j);
  }

  /** generateTargets: no chosen marker (or a chosen marker named "", which
      the source's empty-string sentinel cannot tell apart) gives the
      template itself; otherwise the expansions for each word of the chosen
      marker, in list order. */
  function Expand(t: string, table: Table): (r: seq<string>)
    requires WordsSeparate(table)
    ensures MarkerFree(t, table) ==> r == [t]
    decreases Present(t, table), 1
  {
    var j := FirstMatch(t, table);
    if j == |table| || table[j].marker == "" then [t]
    else ExpandWords(t, table, j, |table[j].words|)
  }

  /** The results the loop over the chosen marker's words has gathered after
      its first `n` iterations. */
  function ExpandWords(t: string, table: Table, j: nat, n: nat): (r: seq<string>)
    requires WordsSeparate(table)
    requires j < |table| && table[j].marker != "" && Contains(t, table[j].marker)
    requires n <= |table[j].words|
    decreases Present(t, table), 0, n
  {
    if n == 0 then [] else ExpandWords(t, table, j, n - 1) + Block(t, table, j, n - 1)
  }

  /** One iteration of that loop: word `i` replaces every occurrence of the
      marker and the result is expanded again. */
  function Block(t: string, table: Table, j: nat, i: nat): (r: seq<string>)
    requires WordsSeparate(table)
    requires j < |table| && table[j].marker != "" && Contains(t, table[j].marker)
    requires i < |table[j].words|
    decreases Present(t, table), 0, i
  {
    PresentShrinks(t, table, j, i);
    Expand(ReplaceAll(t, table[j].marker, table[j].words[i]), table)
  }

  /** Every occurrence gets the same word: the template is its pieces
      around the chosen marker (at least two, since the marker occurs),
      and the iteration for word `i` expands those same pieces joined by
      that word. */
  lemma BlockLockstep(t: string, table: Table, j: nat, i: nat)
    requires WordsSeparate(table)
    requires j < |table| && table[j].marker != "" && Contains(t, table[j].marker)
    requires i < |table[j].words|
    ensures |Pieces(t, table[j].marker)| >= 2
    ensures Join(Pieces(t, table[j].marker), table[j].marker) == t
    ensures Block(t, table, j, i) == Expand(Join(Pieces(t, table[j].marker), table[j].words[i]), table)
  {
    var m := table[j].marker;
    ReplaceLockstep(t, m, table[j].words[i]);
    ContainsSpec(t, m);
  }

  /** With every marker named, no target that comes out still contains a
      marker: the recursion runs until none is left. */
  lemma {:induction false} ExpandClean(t: string, table: Table, x: string)
    requires WordsSeparate(table) && MarkersNamed(table)
    requires x in Expand(t, table)
    ensures MarkerFree(x, table)
    decreases Present(t, table), 1
  {
    var j := FirstMatch(t, table);
    if j == |table| {
      assert x == t;
    } else {
      ExpandWordsClean(t, table, j, |table[j].words|, x);
    }
  }

  lemma {:induction false} ExpandWordsClean(t: string, table: Table, j: nat, n: nat, x: string)
    requires WordsSeparate(table) && MarkersNamed(table)
    requires j < |table| && table[j].marker != "" && Contains(t, table[j].marker)
    requires n <= |table[j].words|
    requires x in ExpandWords(t, table, j, n)
    ensures MarkerFree(x, table)
    decreases Present(t, table), 0, n
  {
    var before, last := ExpandWords(t, table, j, n - 1), Block(t, table, j, n - 1);
    assert ExpandWords(t, table, j, n) == before + last;
    if x in before {
      ExpandWordsClean(t, table, j, n - 1, x);
    } else {
      PresentShrinks(t, table, j, n - 1);
      ExpandClean(ReplaceAll(t, table[j].marker, table[j].words[n - 1]), table, x);
    }
  }

  /** A target comes out of the word loop exactly when it comes out of the
      iteration for one of the words. */
  lemma {:induction false} ExpandWordsMembers(t: string, table: Table, j: nat, n: nat, x: string)
    requires WordsSeparate(table)
    requires j < |table| && table[j].marker != "" && Contains(t, table[j].marker)
    requires n <= |table[j].words|
    ensures x in ExpandWords(t, table, j, n) <==> exists i :: 0 <= i < n && x in Block(t, table, j, i)
  {
    if n > 0 {
      ExpandWordsMembers(t, table, j, n - 1, x);
      var before, last := ExpandWords(t, table, j, n - 1), Block(t, table, j, n - 1);
      assert ExpandWords(t, table, j, n) == before + last;
      if x in before {
        var i :| 0 <= i < n - 1 && x in Block(t, table, j, i);
        assert 0 <= i < n && x in Block(t, table, j, i);
        assert x in before + last;
      } else if x in last {
        assert 0 <= n - 1 < n && x in Block(t, table, j, n - 1);
        assert x in ExpandWords(t, table, j, n);
        assert exists i :: 0 <= i < n && x in Block(t, table, j, i);
      } else {
        assert x !in ExpandWords(t, table, j, n);
        forall i | 0 <= i < n ensures x !in Block(t, table, j, i) {
          if i == n - 1 {
            assert Block(t, table, j, i) == last;
          }
        }
      }
    }
  }

  /** The chosen marker's list being empty gives no targets at all. */
  lemma ExpandEmptyList(t: string, table: Table)
    requires WordsSeparate(table)
    requires FirstMatch(t, table) < |table|
    requires table[FirstMatch(t, table)].marker != ""
    requires table[FirstMatch(t, table)].words == []
    ensures Expand(t, table) == []
  {
  }

  /** A marker named "" occurs in every template, so once it is the first
      occurring entry the template is passed through unexpanded, whatever
      markers follow it. */
  lemma EmptyMarkerPassesThrough(t: string, table: Table, j: nat)
    requires WordsSeparate(table)
    requires j < |table| && table[j].marker == ""
    requires forall k {:trigger Contains(t, table[k].marker)} :: 0 <= k < j ==> table[k].marker != "" && !Contains(t, table[k].marker)
    ensures Expand(t, table) == [t]
  {
    ContainsEmpty(t);
  }

  /* ---- Cardinality ---- */

  /** What entry `k` multiplies the number of targets by: the length of its
      list if its marker occurs in `t`, else 1. */
  function Factor(t: string, table: Table, k: nat): nat
    requires k < |table|
  {
    if Contains(t, table[k].marker) then |table[k].words| else 1
  }

  /** The product of the factors of the first `n` entries. */
  function Product(t: string, table: Table, n: nat): nat
    requires n <= |table|
  {
    if n == 0 then 1 else Product(t, table, n - 1) * Factor(t, table, n - 1)
  }

  /** The product of the factors of the first `n` entries other than `j`. */
  function ProductExcept(t: string, table: Table, j: nat, n: nat): nat
    requires n <= |table|
  {
    if n == 0 then 1
    else ProductExcept(t, table, j, n - 1) * (if n - 1 == j then 1 else Factor(t, table, n - 1))
  }

  lemma {:induction false} ProductSplit(t: string, table: Table, j: nat, n: nat)
    requires j < |table| && n <= |table|
    ensures Product(t, table, n) == ProductExcept(t, table, j, n) * (if j < n then Factor(t, table, j) else 1)
  {
    if n > 0 {
      ProductSplit(t, table, j, n - 1);
      var a, c := ProductExcept(t, table, j, n - 1), Factor(t, table, n - 1);
      var b := if j < n - 1 then Factor(t, table, j) else 1;
      assert Product(t, table, n - 1) == a * b;
      assert Product(t, table, n) == (a * b) * c;
      if n - 1 == j {
        assert b == 1;
        assert ProductExcept(t, table, j, n) == a;
      } else {
        assert ProductExcept(t, table, j, n) == a * c;
        assert (a * b) * c == (a * c) * b by {
          MulCommutes(a, b, c);
        }
      }
    }
  }

  lemma MulStep(n: nat, r: nat)
    requires n > 0
    ensures (n - 1) * r + r == n * r
  {
  }

  lemma MulCommutes(a: nat, b: nat, c: nat)
    ensures (a * b) * c == (a * c) * b
  {
  }

  lemma {:induction false} ProductExceptAgrees(t: string, u: string, table: Table, j: nat, n: nat)
    requires n <= |table|
    requires forall k :: 0 <= k < |table| && k != j ==> Factor(t, table, k) == Factor(u, table, k)
    ensures ProductExcept(t, table, j, n) == ProductExcept(u, table, j, n)
  {
    if n > 0 {
      ProductExceptAgrees(t, u, table, j, n - 1);
    }
  }

  lemma {:induction false} ProductOfAbsent(t: string, table: Table, n: nat)
    requires n <= |table|
    requires MarkerFree(t, table)
    ensures Product(t, table, n) == 1
  {
    if n > 0 {
      ProductOfAbsent(t, table, n - 1);
    }
  }

  /** Substituting a word for the chosen marker removes exactly that marker:
      every other marker occurs afterwards iff it occurred before. */
  lemma ReplaceEffect(t: string, table: Table, j: nat, i: nat)
    requires WordsSeparate(table) && MarkersSeparate(table)
    requires j < |table| && Contains(t, table[j].marker) && i < |table[j].words|
    ensures var u := ReplaceAll(t, table[j].marker, table[j].words[i]);
      && Factor(u, table, j) == 1
      && forall k :: 0 <= k < |table| && k != j ==> Factor(t, table, k) == Factor(u, table, k)
  {
    var m, w := table[j].marker, table[j].words[i];
    assert FitsTable(w, table);
    ReplaceRemoves(t, m, w);
    forall k | 0 <= k < |table| && k != j
      ensures Contains(t, table[k].marker) <==> Contains(ReplaceAll(t, m, w), table[k].marker)
    {
      ReplaceKeeps(t, m, w, table[k].marker);
      ReplaceCreatesNothing(t, m, w, table[k].marker);
    }
  }

  /** With separate markers and words, the number of targets is the product
      of the list lengths of the markers occurring in the template. */
  lemma {:induction false} ExpandCount(t: string, table: Table)
    requires WordsSeparate(table) && MarkersSeparate(table)
    ensures |Expand(t, table)| == Product(t, table, |table|)
    decreases Present(t, table), 1
  {
    var j := FirstMatch(t, table);
    if j == |table| {
      ProductOfAbsent(t, table, |table|);
    } else {
      var w := |table[j].words|;
      var rest := ProductExcept(t, table, j, |table|);
      forall i | 0 <= i < w ensures |Block(t, table, j, i)| == rest {
        BlockCount(t, table, j, i);
      }
      ExpandWordsCount(t, table, j, w, rest);
      assert |Expand(t, table)| == w * rest;
      ProductSplit(t, table, j, |table|);
      assert Factor(t, table, j) == w;
      assert Product(t, table, |table|) == rest * w;
    }
  }

  /** The word loop gathers `n` blocks; when each has `r` targets, it
      gathers `n * r`. */
  lemma {:induction false} ExpandWordsCount(t: string, table: Table, j: nat, n: nat, r: nat)
    requires WordsSeparate(table)
    requires j < |table| && table[j].marker != "" && Contains(t, table[j].marker)
    requires n <= |table[j].words|
    requires forall i :: 0 <= i < n ==> |Block(t, table, j, i)| == r
    ensures |ExpandWords(t, table, j, n)| == n * r
  {
    if n > 0 {
      ExpandWordsCount(t, table, j, n - 1, r);
      assert |ExpandWords(t, table, j, n)| == (n - 1) * r + r;
      MulStep(n, r);
    }
  }

  /** Each word's iteration yields the product over the other markers. */
  lemma {:induction false} BlockCount(t: string, table: Table, j: nat, i: nat)
    requires WordsSeparate(table) && MarkersSeparate(table)
    requires j < |table| && Contains(t, table[j].marker)
    requires i < |table[j].words|
    ensures |Block(t, table, j, i)| == ProductExcept(t, table, j, |table|)
    decreases Present(t, table), 0, i
  {
    assert table[j].marker != "";
    var u := ReplaceAll(t, table[j].marker, table[j].words[i]);
    assert |Block(t, table, j, i)| == Product(u, table, |table|) by {
      PresentShrinks(t, table, j, i);
      ExpandCount(u, table);
    }
    ReplacedProduct(t, table, j, i);
  }

  /** Substituting word `i` for marker `j` leaves the product of the other
      markers' factors, which the rest of the expansion then multiplies out. */
  lemma ReplacedProduct(t: string, table: Table, j: nat, i: nat)
    requires WordsSeparate(table) && MarkersSeparate(table)
    requires j < |table| && Contains(t, table[j].marker) && i < |table[j].words|
    ensures Product(ReplaceAll(t, table[j].marker, table[j].words[i]), table, |table|)
         == ProductExcept(t, table, j, |table|)
  {
    var u := ReplaceAll(t, table[j].marker, table[j].words[i]);
    ReplaceEffect(t, table, j, i);
    var f := Factor(u, table, j);
    assert f == 1;
    var pu := ProductExcept(u, table, j, |table|);
    assert Product(u, table, |table|) == pu * f by {
      ProductSplit(u, table, j, |table|);
    }
    assert pu == ProductExcept(t, table, j, |table|) by {
      ProductExceptAgrees(t, u, table, j, |table|);
    }
  }

  /* ---- The source's loops ---- */

  /** The marker scan at the head of generateTargets: the first entry whose
      marker occurs in the template, and that marker's name ("" if none). */
  method ChooseMarker(template: string, table: Table) returns (j: nat, found: string)
    ensures j == FirstMatch(template, table)
    ensures found == if j < |table| then table[j].marker else ""
  {
    found := "";
    j := 0;
    while j < |table|
      invariant j <= |table| && found == ""
      invariant forall k {:trigger Contains(template, table[k].marker)} :: 0 <= k < j ==> !Contains(template, table[k].marker)
    {
      if Contains(template, table[j].marker) {
        found := table[j].marker;
        break;
      }
      j := j + 1;
    }
  }

  /** generateTargets: the marker scan, then (when it found a marker) the
      loop over that marker's words, each iteration recursing. */
  method GenerateTargets(template: string, table: Table) returns (results: seq<string>)
    requires WordsSeparate(table)
    ensures results == Expand(template, table)
    decreases Present(template, table), 2
  {
    var j, found := ChooseMarker(template, table);
    if found == "" {
      return [template];
    }
    results := ExpandEachWord(template, table, j);
  }

  /** The loop of generateTargets over the chosen marker's words: substitute
      each word for every occurrence of the marker, expand the result
      recursively and append its targets. */
  method ExpandEachWord(template: string, table: Table, j: nat) returns (results: seq<string>)
    requires WordsSeparate(table)
    requires j < |table| && table[j].marker != "" && Contains(template, table[j].marker)
    ensures results == ExpandWords(template, table, j, |table[j].words|)
    decreases Present(template, table), 1
  {
    var words := table[j].words;
    results := [];
    var i := 0;
    while i < |words|
      invariant i <= |words|
      invariant results == ExpandWords(template, table, j, i)
    {
      var subResults := ExpandWord(template, table, j, i);
      results := results + subResults;
      i := i + 1;
    }
  }

  /** One iteration of that loop: substitute word `i` for every occurrence
      of the marker and expand the new template recursively. */
  method ExpandWord(template: string, table: Table, j: nat, i: nat) returns (results: seq<string>)
    requires WordsSeparate(table)
    requires j < |table| && table[j].marker != "" && Contains(template, table[j].marker)
    requires i < |table[j].words|
    ensures results == Block(template, table, j, i)
    decreases Present(template, table), 0
  {
    var newTemplate := ReplaceAll(template, table[j].marker, table[j].words[i]);
    PresentShrinks(template, table, j, i);
    results := GenerateTargets(newTemplate, table);
  }

  /** The hasMarkers scan: true iff some marker name occurs in the target. */
  method HasMarkers(target: string, table: Table) returns (has: bool)
    ensures has <==> !MarkerFree(target, table)
  {
    has := false;
    var k := 0;
    while k < |table|
      invariant k <= |table|
      invariant !has
      invariant forall q {:trigger Contains(target, table[q].marker)} :: 0 <= q < k ==> !Contains(target, table[q].marker)
    {
      if Contains(target, table[k].marker) {
        has := true;
        break;
      }
      k := k + 1;
    }
  }
}
