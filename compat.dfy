/** What the two enumeration modes do with a template before probing it:
    expand its markers, or, when it has none, build the targets from the
    `WL1` list the way the tool always did; directory mode then multiplies
    the targets by the requested extensions. */
module Compatibility {
  import opened Wrappers
  import opened GoStrings
  import opened Expansion

  /** `wordlistData[name]`: the list bound to `name`, if any. The table
      plays the role of the map, so the first entry with that name wins. */
  function Lookup(table: Table, name: string): (r: Option<seq<string>>)
    ensures r.None? <==> forall k :: 0 <= k < |table| ==> table[k].marker != name
    ensures r.Some? ==> exists k :: 0 <= k < |table| && table[k] == Wordlist(name, r.value)
  {
    if |table| == 0 then None
    else if table[0].marker == name then Some(table[0].words)
    else
      var r := Lookup(table[1..], name);
      assert forall k :: 1 <= k < |table| ==> table[k] == table[1..][k - 1];
      r
  }

  // ---------------------------------------------------------------------
  // Subdomain mode

  /** The host that subdomain mode puts words in front of: `http://`,
      `https://` and `www.` are each removed once, in that order. */
  function SubdomainHost(target: string): string
  {
    TrimPrefix(TrimPrefix(TrimPrefix(target, "http://"), "https://"), "www.")
  }

  /** The prefixes that the three removals can take off together. */
  predicate StrippedPrefix(p: string)
  {
    || p == "" || p == "http://" || p == "https://" || p == "www."
    || p == "http://https://" || p == "http://www." || p == "https://www."
    || p == "http://https://www."
  }

  /** Each removal takes off its prefix or nothing. */
  lemma StrippedCombination(p: string, q: string, w: string)
    requires p == "" || p == "http://"
    requires q == "" || q == "https://"
    requires w == "" || w == "www."
    ensures StrippedPrefix(p + q + w)
  {
    if p == "" && q == "" {
      assert p + q + w == w;
    } else if p == "" && w == "" {
      assert p + q + w == q;
    } else if q == "" && w == "" {
      assert p + q + w == p;
    } else if p == "" {
      assert p + q + w == "https://www.";
    } else if q == "" {
      assert p + q + w == "http://www.";
    } else if w == "" {
      assert p + q + w == "http://https://";
    } else {
      assert p + q + w == "http://https://www.";
    }
  }

  /** The host is what is left of the target after one of the stripped
      prefixes: each of the three at most once, in that order. */
  lemma SubdomainHostSuffix(target: string)
    ensures exists k :: 0 <= k <= |target| && StrippedPrefix(target[..k])
                        && target[k..] == SubdomainHost(target)
  {
    var a := TrimPrefix(target, "http://");
    var b := TrimPrefix(a, "https://");
    var c := TrimPrefix(b, "www.");
    var p := if HasPrefix(target, "http://") then "http://" else "";
    var q := if HasPrefix(a, "https://") then "https://" else "";
    var w := if HasPrefix(b, "www.") then "www." else "";
    assert target == p + q + w + c;
    StrippedCombination(p, q, w);
    var k := |p + q + w|;
    assert target[..k] == p + q + w;
    assert target[k..] == c;
  }

  /** The compatibility list of subdomain mode: `word.host` per word,
      in word order. */
  function SubdomainList(host: string, words: seq<string>): (r: seq<string>)
    ensures |r| == |words|
    ensures forall i :: 0 <= i < |words| ==> r[i] == words[i] + "." + host
  {
    if |words| == 0 then []
    else
      var front := SubdomainList(host, words[..|words| - 1]);
      assert forall i :: 0 <= i < |words| - 1 ==> words[..|words| - 1][i] == words[i];
      front + [words[|words| - 1] + "." + host]
  }

  /** The loop of subdomain mode's compatibility path. */
  method SubdomainTargets(target: string, words: seq<string>) returns (targets: seq<string>)
    ensures targets == SubdomainList(SubdomainHost(target), words)
  {
    var host := SubdomainHost(target);
    targets := [];
    var i := 0;
    while i < |words|
      invariant i <= |words|
      invariant targets == SubdomainList(host, words[..i])
    {
      assert words[..i + 1][..i] == words[..i];
      assert SubdomainList(host, words[..i + 1]) == targets + [words[i] + "." + host];
      targets := targets + [words[i] + "." + host];
      i := i + 1;
    }
    assert words[..i] == words;
  }

  /** The target list subdomain mode probes, or None where it gives up
      because the template has no marker and there is no `WL1` list. */
  function SubdomainPlan(target: string, table: Table): (r: Option<seq<string>>)
    requires !MarkerFree(target, table) ==> WordsSeparate(table)
    ensures r.None? <==> MarkerFree(target, table) && Lookup(table, "WL1").None?
  {
    if !MarkerFree(target, table) then Some(Expand(target, table))
    else match Lookup(table, "WL1")
      case None => None
      case Some(words) => Some(SubdomainList(SubdomainHost(target), words))
  }

  /** Subdomain mode from the decoded wordlists to the list of jobs. */
  method BuildSubdomainTargets(target: string, table: Table) returns (r: Option<seq<string>>)
    requires !MarkerFree(target, table) ==> WordsSeparate(table)
    ensures r == SubdomainPlan(target, table)
  {
    var has := HasMarkers(target, table);
    if has {
      var targets := GenerateTargets(target, table);
      return Some(targets);
    }
    var lines := Lookup(table, "WL1");
    if lines.Some? {
      var targets := SubdomainTargets(target, lines.value);
      return Some(targets);
    }
    return None;
  }

  /** The plainest use of subdomain mode: a bare domain and a `WL1` list,
      whatever its words, probes `word.domain`. */
  lemma PlainSubdomainPlan()
    ensures MarkerFree("example.com", [Wordlist("WL1", ["1", "W"])])
            && SubdomainPlan("example.com", [Wordlist("WL1", ["1", "W"])])
               == Some(["1.example.com", "W.example.com"])
  {
    MissingFirst("example.com", "WL1");
    var table := [Wordlist("WL1", ["1", "W"])];
    assert MarkerFree("example.com", table);
    assert Lookup(table, "WL1") == Some(["1", "W"]);
    PlainHost();
    PlainSubdomains();
  }

  /** A bare host keeps its name. */
  lemma PlainHost()
    ensures SubdomainHost("example.com") == "example.com"
  {
    var d := "example.com";
    assert !HasPrefix(d, "http://") && !HasPrefix(d, "https://") && !HasPrefix(d, "www.") by {
      assert d[..7][0] == d[..8][0] == d[..4][0] == 'e';
    }
  }

  /** Each word is put in front of the host with a dot. */
  lemma PlainSubdomains()
    ensures SubdomainList("example.com", ["1", "W"]) == ["1.example.com", "W.example.com"]
  {
    var r := SubdomainList("example.com", ["1", "W"]);
    assert r[0] == "1.example.com" && r[1] == "W.example.com";
  }

  // ---------------------------------------------------------------------
  // Directory mode

  /** The protocol fix-up: a URL not starting with `http` gets `http://`
      in front. Directory mode applies it to the template and each worker
      to every job. */
  function EnsureScheme(url: string): (r: string)
    ensures HasPrefix(r, "http")
    ensures r == url || r == "http://" + url
    ensures HasPrefix(url, "http") <==> r == url
  {
    if HasPrefix(url, "http") then url else "http://" + url
  }

  /** Fixing the protocol twice is fixing it once. */
  lemma EnsureSchemeIdempotent(url: string)
    ensures EnsureScheme(EnsureScheme(url)) == EnsureScheme(url)
  {
  }

  /** The base URL of directory mode's compatibility path. */
  function DirectoryBase(url: string): string
  {
    TrimSuffix(EnsureScheme(url), "/")
  }

  /** The base starts with `http`, and at most one trailing `/` of the
      fixed-up URL is dropped. */
  lemma DirectoryBaseShape(url: string)
    ensures HasPrefix(DirectoryBase(url), "http")
    ensures var u := EnsureScheme(url);
      DirectoryBase(url) == u || DirectoryBase(url) + "/" == u
    ensures HasSuffix(EnsureScheme(url), "/") ==> DirectoryBase(url) + "/" == EnsureScheme(url)
  {
    var u := EnsureScheme(url);
    if HasSuffix(u, "/") {
      var b := DirectoryBase(url);
      assert b == u[..|u| - 1];
      assert u[..4] == "http";
      assert |u| >= 5 by {
        assert u[3] == 'p';
        assert u[|u| - 1] == '/';
      }
      assert b[..4] == u[..4];
    }
  }

  /** The compatibility list of directory mode: `base/word` per word, in
      word order. */
  function DirectoryList(url: string, words: seq<string>): (r: seq<string>)
    ensures |r| == |words|
    ensures forall i :: 0 <= i < |words| ==> r[i] == DirectoryBase(url) + "/" + words[i]
  {
    if |words| == 0 then []
    else
      var front := DirectoryList(url, words[..|words| - 1]);
      assert forall i :: 0 <= i < |words| - 1 ==> words[..|words| - 1][i] == words[i];
      front + [DirectoryBase(url) + "/" + words[|words| - 1]]
  }

  /** The loop of directory mode's compatibility path. */
  method DirectoryTargets(url: string, words: seq<string>) returns (targets: seq<string>)
    ensures targets == DirectoryList(url, words)
  {
    var base := DirectoryBase(url);
    targets := [];
    var i := 0;
    while i < |words|
      invariant i <= |words|
      invariant targets == DirectoryList(url, words[..i])
    {
      assert words[..i + 1][..i] == words[..i];
      assert DirectoryList(url, words[..i + 1]) == targets + [base + "/" + words[i]];
      targets := targets + [base + "/" + words[i]];
      i := i + 1;
    }
    assert words[..i] == words;
  }

  /** Every compatibility target of directory mode starts with `http`, so
      the workers' protocol fix-up leaves it as it is. */
  lemma DirectoryListSchemed(url: string, words: seq<string>, i: nat)
    requires i < |words|
    ensures HasPrefix(DirectoryList(url, words)[i], "http")
    ensures EnsureScheme(DirectoryList(url, words)[i]) == DirectoryList(url, words)[i]
  {
    DirectoryBaseShape(url);
    var b := DirectoryBase(url);
    assert (b + "/" + words[i])[..4] == b[..4];
  }

  // ---------------------------------------------------------------------
  // Extensions

  /** `tgt.ext`, with one leading `.` of the extension dropped. */
  function Dotted(tgt: string, ext: string): string
  {
    tgt + "." + TrimPrefix(ext, ".")
  }

  /** One base target with every extension, in extension order. */
  function WithExtensions(tgt: string, exts: seq<string>): seq<string>
  {
    if |exts| == 0 then []
    else WithExtensions(tgt, exts[..|exts| - 1]) + [Dotted(tgt, exts[|exts| - 1])]
  }

  /** Every base target with every extension: base-major, extension-minor. */
  function AllWithExtensions(bases: seq<string>, exts: seq<string>): seq<string>
  {
    if |bases| == 0 then []
    else AllWithExtensions(bases[..|bases| - 1], exts) + WithExtensions(bases[|bases| - 1], exts)
  }

  /** The final target list of directory mode: the bases unchanged when no
      extension is given, every combination otherwise. */
  function Extend(bases: seq<string>, exts: seq<string>): seq<string>
  {
    if |exts| > 0 then AllWithExtensions(bases, exts) else bases
  }

  /** One base yields one target per extension, in extension order. */
  lemma {:induction false} WithExtensionsAt(tgt: string, exts: seq<string>)
    ensures |WithExtensions(tgt, exts)| == |exts|
    ensures forall k :: 0 <= k < |exts| ==> WithExtensions(tgt, exts)[k] == Dotted(tgt, exts[k])
    decreases |exts|
  {
    if |exts| > 0 {
      WithExtensionsAt(tgt, exts[..|exts| - 1]);
    }
  }

  /** There are |bases| * |exts| combined targets. */
  lemma {:induction false} AllWithExtensionsLength(bases: seq<string>, exts: seq<string>)
    ensures |AllWithExtensions(bases, exts)| == |bases| * |exts|
    decreases |bases|
  {
    if |bases| > 0 {
      AllWithExtensionsLength(bases[..|bases| - 1], exts);
      WithExtensionsAt(bases[|bases| - 1], exts);
      MulStep(|bases|, |exts|);
    }
  }

  /** i * e + k stays below m * e for i < m and k < e. */
  lemma {:induction false} RowBound(i: nat, m: nat, e: nat, k: nat)
    requires i < m && k < e
    ensures i * e + k < m * e
    decreases m
  {
    MulStep(m, e);
    if i < m - 1 {
      RowBound(i, m - 1, e, k);
    }
  }

  /** The combination of base i with extension k sits at index
      i * |exts| + k. */
  lemma {:induction false} AllWithExtensionsAt(bases: seq<string>, exts: seq<string>, i: nat, k: nat)
    requires i < |bases| && k < |exts|
    ensures i * |exts| + k < |AllWithExtensions(bases, exts)|
            && AllWithExtensions(bases, exts)[i * |exts| + k] == Dotted(bases[i], exts[k])
    decreases |bases|
  {
    var n := |bases|;
    var front := bases[..n - 1];
    AllWithExtensionsLength(front, exts);
    AllWithExtensionsLength(bases, exts);
    WithExtensionsAt(bases[n - 1], exts);
    RowBound(i, n, |exts|, k);
    if i < n - 1 {
      RowBound(i, n - 1, |exts|, k);
      AllWithExtensionsAt(front, exts, i, k);
      assert front[i] == bases[i];
    }
  }

  /** The nested loop of directory mode's extension step. */
  method ExtendTargets(bases: seq<string>, exts: seq<string>) returns (finals: seq<string>)
    ensures finals == Extend(bases, exts)
  {
    if |exts| == 0 {
      return bases;
    }
    finals := [];
    var i := 0;
    while i < |bases|
      invariant i <= |bases|
      invariant finals == AllWithExtensions(bases[..i], exts)
    {
      var tgt := bases[i];
      var done := finals;
      var k := 0;
      while k < |exts|
        invariant k <= |exts|
        invariant finals == done + WithExtensions(tgt, exts[..k])
      {
        var ext := TrimPrefix(exts[k], ".");
        assert exts[..k + 1][..k] == exts[..k];
        finals := finals + [tgt + "." + ext];
        k := k + 1;
      }
      assert exts[..k] == exts;
      assert bases[..i + 1][..i] == bases[..i];
      i := i + 1;
    }
    assert bases[..i] == bases;
  }

  /** The target list directory mode probes, or None where it gives up. */
  function DirectoryPlan(url: string, table: Table, exts: seq<string>): (r: Option<seq<string>>)
    requires !MarkerFree(url, table) ==> WordsSeparate(table)
    ensures r.None? <==> MarkerFree(url, table) && Lookup(table, "WL1").None?
  {
    if !MarkerFree(url, table) then Some(Extend(Expand(url, table), exts))
    else match Lookup(table, "WL1")
      case None => None
      case Some(words) => Some(Extend(DirectoryList(url, words), exts))
  }

  /** Directory mode from the decoded wordlists to the list of jobs. */
  method BuildDirectoryTargets(url: string, table: Table, exts: seq<string>) returns (r: Option<seq<string>>)
    requires !MarkerFree(url, table) ==> WordsSeparate(table)
    ensures r == DirectoryPlan(url, table, exts)
  {
    var has := HasMarkers(url, table);
    var bases: seq<string>;
    if has {
      bases := GenerateTargets(url, table);
    } else {
      var lines := Lookup(table, "WL1");
      if lines.None? {
        return None;
      }
      bases := DirectoryTargets(url, lines.value);
    }
    var finals := ExtendTargets(bases, exts);
    return Some(finals);
  }

  /** The base of a bare host is the host under `http://`. */
  lemma PlainDirectoryBase()
    ensures DirectoryBase("example.com") == "http://example.com"
  {
    PlainScheme();
    var u := "http://example.com";
    assert !HasSuffix(u, "/") by {
      assert u[|u| - 1..][0] == 'm';
    }
  }

  /** A bare host gets `http://` put in front of it. */
  lemma PlainScheme()
    ensures EnsureScheme("example.com") == "http://example.com"
  {
    var d := "example.com";
    assert !HasPrefix(d, "http") by {
      assert d[..4][0] == 'e';
    }
    assert "http://" + d == "http://example.com";
  }

  /** The plainest use of directory mode: a bare host and a `WL1` list,
      whatever its words, requests `http://host/word`. */
  lemma PlainDirectoryPlan()
    ensures MarkerFree("example.com", [Wordlist("WL1", ["1", "L1"])])
            && DirectoryPlan("example.com", [Wordlist("WL1", ["1", "L1"])], [])
               == Some(["http://example.com/1", "http://example.com/L1"])
  {
    var table := [Wordlist("WL1", ["1", "L1"])];
    var d := "example.com";
    MissingFirst(d, "WL1");
    assert MarkerFree(d, table);
    assert Lookup(table, "WL1") == Some(["1", "L1"]);
    PlainDirectories();
    var r := DirectoryList(d, ["1", "L1"]);
    ExtendSize(r, []);
    assert DirectoryPlan(d, table, []) == Some(r);
  }

  /** Each word is put after the base with a slash. */
  lemma PlainDirectories()
    ensures DirectoryList("example.com", ["1", "L1"])
            == ["http://example.com/1", "http://example.com/L1"]
  {
    PlainDirectoryBase();
    var r := DirectoryList("example.com", ["1", "L1"]);
    assert r[0] == "http://example.com/1" && r[1] == "http://example.com/L1";
  }



  /** An extension given with its dot is appended with one dot. */
  lemma PlainExtension()
    ensures Extend(["http://example.com/1", "http://example.com/L1"], [".php"])
            == ["http://example.com/1.php", "http://example.com/L1.php"]
  {
    var r := ["http://example.com/1", "http://example.com/L1"];
    var x := Extend(r, [".php"]);
    assert TrimPrefix(".php", ".") == "php" by {
      assert HasPrefix(".php", ".");
    }
    ExtendSize(r, [".php"]);
    ExtendShape(r, [".php"], 0, 0);
    ExtendShape(r, [".php"], 1, 0);
    assert x[0] == "http://example.com/1.php" && x[1] == "http://example.com/L1.php";
  }


  /** Without extensions the bases go out unchanged; with them there are
      |bases| * |exts| targets. */
  lemma ExtendSize(bases: seq<string>, exts: seq<string>)
    ensures |exts| > 0 ==> |Extend(bases, exts)| == |bases| * |exts|
    ensures Extend(bases, []) == bases
  {
    if |exts| > 0 {
      AllWithExtensionsLength(bases, exts);
    }
  }

  /** Base i with extension k is target i * |exts| + k: base-major,
      extension-minor. */
  lemma ExtendShape(bases: seq<string>, exts: seq<string>, i: nat, k: nat)
    requires i < |bases| && k < |exts|
    ensures i * |exts| + k < |Extend(bases, exts)|
            && Extend(bases, exts)[i * |exts| + k] == Dotted(bases[i], exts[k])
  {
    assert Extend(bases, exts) == AllWithExtensions(bases, exts);
    AllWithExtensionsAt(bases, exts, i, k);
  }

}
