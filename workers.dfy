/** What a worker does with one job around its network call: the name it
    resolves, and whether a response is reported. The URL a directory
    worker fetches is the job with its protocol fixed,
    `Compatibility.EnsureScheme`. The lookup and the request themselves are
    not modelled; a probe is given as its outcome. */
module Workers {
  import opened GoStrings
  import opened GoStrconv

  // ---------------------------------------------------------------------
  // Subdomain workers

  /** The name a subdomain worker resolves: `http://`, then `https://`,
      each removed once. */
  function DnsName(fullDomain: string): (name: string)
    ensures |name| <= |fullDomain| && name == fullDomain[|fullDomain| - |name|..]
  {
    TrimPrefix(TrimPrefix(fullDomain, "http://"), "https://")
  }

  /** A job given with either scheme resolves the bare name, and a job
      without a scheme resolves as it is. */
  lemma DnsNameDropsScheme(d: string)
    ensures DnsName("https://" + d) == d
    ensures !HasPrefix(d, "https://") ==> DnsName("http://" + d) == d
    ensures !HasPrefix(d, "http://") && !HasPrefix(d, "https://") ==> DnsName(d) == d
  {
    var s := "https://" + d;
    assert s[..7] != "http://" by { assert s[4] == 's'; }
    assert s[..8] == "https://";
    var t := "http://" + d;
    assert t[..7] == "http://";
    assert t[7..] == d;
  }

  // ---------------------------------------------------------------------
  // Directory workers

  /** The outcome of one request: the call failed, or a status code and a
      content length (-1 when the server sent none). */
  datatype Probe = Failed | Response(code: int, size: int)

  /** The filter of directory mode, as the three `continue` conditions
      read: a response is reported unless its code is not matched, or a
      non-empty code filter names it, or a non-empty size filter names its
      size. The emptiness tests are redundant: an empty list names nothing. */
  function Reported(code: int, size: int, matchCodes: seq<int>, filterCodes: seq<int>,
                    filterSizes: seq<int>): (ok: bool)
    ensures ok <==> code in matchCodes && code !in filterCodes && size !in filterSizes
  {
    if code !in matchCodes then false
    else if |filterCodes| > 0 && code in filterCodes then false
    else if |filterSizes| > 0 && size in filterSizes then false
    else true
  }

  /** With no match codes nothing is reported, whatever the filters. */
  lemma NothingMatchesEmpty(code: int, size: int, filterCodes: seq<int>, filterSizes: seq<int>)
    ensures !Reported(code, size, [], filterCodes, filterSizes)
  {
  }

  /** Empty filters report exactly the matched codes, and a filter can
      only take reports away. */
  lemma FiltersOnlyRemove(code: int, size: int, matchCodes: seq<int>, filterCodes: seq<int>,
                          filterSizes: seq<int>)
    ensures Reported(code, size, matchCodes, [], []) <==> code in matchCodes
    ensures Reported(code, size, matchCodes, filterCodes, filterSizes)
            ==> Reported(code, size, matchCodes, [], [])
  {
  }

  /** containsInt: a linear scan for `item`. */
  method ContainsInt(list: seq<int>, item: int) returns (found: bool)
    ensures found <==> item in list
  {
    var i := 0;
    while i < |list|
      invariant i <= |list|
      invariant item !in list[..i]
    {
      if list[i] == item {
        return true;
      }
      assert list[..i + 1] == list[..i] + [list[i]];
      i := i + 1;
    }
    assert list[..i] == list;
    return false;
  }

  /** Go's conversion int64(v): the value taken modulo 2^64 into the
      signed range. */
  function ToInt64(v: int): (r: int)
    ensures InInt64(r)
    ensures (r - v) % 0x1_0000_0000_0000_0000 == 0
  {
    (v - MinInt64) % 0x1_0000_0000_0000_0000 + MinInt64
  }

  /** The conversion changes no value a Go int can hold. */
  lemma ToInt64Exact(v: int)
    requires InInt64(v)
    ensures ToInt64(v) == v
  {
    assert 0 <= v - MinInt64 < 0x1_0000_0000_0000_0000;
  }

  /** containsInt64: a linear scan comparing each element, converted to
      int64, with `item`. */
  method ContainsInt64(list: seq<int>, item: int) returns (found: bool)
    ensures found <==> exists k :: 0 <= k < |list| && ToInt64(list[k]) == item
  {
    var i := 0;
    while i < |list|
      invariant i <= |list|
      invariant forall k :: 0 <= k < i ==> ToInt64(list[k]) != item
    {
      if ToInt64(list[i]) == item {
        return true;
      }
      i := i + 1;
    }
    return false;
  }

  /** For lists of Go ints the conversion is invisible: containsInt64
      tests plain membership. */
  lemma ContainsInt64IsMembership(list: seq<int>, item: int)
    requires forall k :: 0 <= k < |list| ==> InInt64(list[k])
    ensures (exists k :: 0 <= k < |list| && ToInt64(list[k]) == item) <==> item in list
  {
    forall k | 0 <= k < |list| {
      ToInt64Exact(list[k]);
    }
  }

  /** One directory worker after its request: report the
      response unless the request failed or one of the three tests skips it. */
  method Classify(probe: Probe, matchCodes: seq<int>, filterCodes: seq<int>, filterSizes: seq<int>)
    returns (report: bool)
    requires forall k :: 0 <= k < |filterSizes| ==> InInt64(filterSizes[k])
    ensures report <==> probe.Response? && Reported(probe.code, probe.size, matchCodes, filterCodes, filterSizes)
  {
    if probe.Failed? {
      return false;
    }
    var code, size := probe.code, probe.size;
    var matched := ContainsInt(matchCodes, code);
    if !matched {
      return false;
    }
    if |filterCodes| > 0 {
      var filtered := ContainsInt(filterCodes, code);
      if filtered {
        return false;
      }
    }
    if |filterSizes| > 0 {
      var sized := ContainsInt64(filterSizes, size);
      ContainsInt64IsMembership(filterSizes, size);
      if sized {
        return false;
      }
    }
    return true;
  }
}
