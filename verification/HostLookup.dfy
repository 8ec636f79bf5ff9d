/** Host lookup of the resolver and of the proxies, and the domain policy. */
module HostLookup {
  import opened Bytes
  import opened Text

  /** toLowerCase and removal of one trailing dot. */
  function NormalizeHost(name: Name): Name
  {
    var low := Lower(name);
    if low != [] && low[|low| - 1] == DOT then low[..|low| - 1] else low
  }

  const ANY: Name := [STAR]

  function Wild(labels: seq<Name>): Name { [STAR, DOT] + Join(labels) }

  predicate IsWild(key: Name) { key == ANY || [STAR, DOT] <= key }

  /** validateServerConfig stores every key in lower case. */
  ghost predicate LowerKeys<V>(hosts: map<Name, V>)
  {
    forall k :: k in hosts ==> Lower(k) == k
  }

  /** The first wildcard key among the suffixes labels[i..], for i below `limit`. */
  function SuffixKey<V>(hosts: map<Name, V>, labels: seq<Name>, i: nat, limit: nat): Option<Name>
    requires limit <= |labels|
    decreases limit - i
  {
    if i >= limit then None
    else if Wild(labels[i..]) in hosts then Some(Wild(labels[i..]))
    else SuffixKey(hosts, labels, i + 1, limit)
  }

  /** The key findHostConfig uses. */
  function FindKey<V>(hosts: map<Name, V>, name: Name): Option<Name>
  {
    if !IsWild(name) && name in hosts then Some(name)
    else
      var key := SuffixKey(hosts, Split(name), 0, |Split(name)|);
      if key.Some? then key
      else if ANY in hosts then Some(ANY) else None
  }

  function FindHost<V>(hosts: map<Name, V>, name: Name): (r: Option<V>)
  {
    var key := FindKey(hosts, name);
    if key.Some? then FindKeyIn(hosts, name); Some(hosts[key.value]) else None
  }

  lemma {:induction false} SuffixKeyIn<V>(hosts: map<Name, V>, labels: seq<Name>, i: nat, limit: nat)
    requires limit <= |labels|
    ensures var key := SuffixKey(hosts, labels, i, limit);
            key.Some? ==> key.value in hosts
    decreases limit - i
  {
    if i < limit { SuffixKeyIn(hosts, labels, i + 1, limit); }
  }

  lemma FindKeyIn<V>(hosts: map<Name, V>, name: Name)
    ensures FindKey(hosts, name).Some? ==> FindKey(hosts, name).value in hosts
  {
    SuffixKeyIn(hosts, Split(name), 0, |Split(name)|);
  }

  method FindHostConfig<V>(hosts: map<Name, V>, name: Name) returns (r: Option<V>)
    requires LowerKeys(hosts)
    ensures r == FindHost(hosts, name)
  {
    hide Split, Join;
    FindKeyIn(hosts, name);
    var keys := hosts.Keys;
    while keys != {}
      invariant keys <= hosts.Keys
      invariant !IsWild(name) && name in hosts ==> name in keys
      decreases keys
    {
      var key :| key in keys;
      if !IsWild(key) && Lower(key) == name { return Some(hosts[key]); }
      keys := keys - {key};
    }
    var labels := Split(name);
    var i := 0;
    while i < |labels|
      invariant 0 <= i <= |labels|
      invariant SuffixKey(hosts, labels, i, |labels|) == SuffixKey(hosts, labels, 0, |labels|)
    {
      var wildcard := Wild(labels[i..]);
      if wildcard in hosts { return Some(hosts[wildcard]); }
      i := i + 1;
    }
    if ANY in hosts { return Some(hosts[ANY]); }
    return None;
  }

  // ---------------------------------------------------------------- most specific match

  /** A key covers a name exactly, as "*", or as "*." before some of the name's last labels. */
  ghost predicate Covers(key: Name, name: Name)
  {
    || (key == name && !IsWild(key))
    || key == [42]
    || CoversSuffix(key, Split(name))
  }

  ghost predicate CoversSuffix(key: Name, labels: seq<Name>)
  {
    exists i: nat :: i < |labels| && key == [42, 46] + Join(labels[i..])
  }

  /** In terms of labels: the key is "*" followed by a suffix of the name's labels. */
  lemma {:induction false} WildIsLabelSuffix(key: Name, name: Name)
    ensures CoversSuffix(key, Split(name)) <==>
            (exists i: nat :: i < |Split(name)| && Split(key) == [[STAR]] + Split(name)[i..])
  {
    var labels := Split(name);
    JoinSplit(name);
    forall i: nat | i < |labels| ensures key == Wild(labels[i..]) <==> Split(key) == [[STAR]] + labels[i..] {
      assert Dotless(labels[i..]);
      WildLabels(key, labels[i..]);
    }
    hide Split, Join;
  }

  lemma {:induction false} WildLabels(key: Name, labels: seq<Name>)
    requires Dotless(labels) && labels != []
    ensures key == Wild(labels) <==> Split(key) == [[STAR]] + labels
  {
    SplitJoin(labels);
    SplitPrefix([STAR], Join(labels));
    JoinSplit(key);
    JoinPrefix([STAR], labels);
    hide Split, Join;
    assert [STAR] + [DOT] + Join(labels) == Wild(labels);
  }

  lemma JoinPrefix(l: Name, labels: seq<Name>)
    requires labels != []
    ensures Join([l] + labels) == l + [DOT] + Join(labels)
  {
    assert ([l] + labels)[1..] == labels;
  }

  lemma {:induction false} ShorterSuffix(labels: seq<Name>, i: nat, j: nat)
    requires i <= j < |labels|
    ensures |Join(labels[j..])| <= |Join(labels[i..])|
    decreases j - i
  {
    if i < j {
      assert labels[i..][1..] == labels[i + 1..];
      ShorterSuffix(labels, i + 1, j);
    }
  }

  lemma {:induction false} SuffixKeyIsFirst<V>(hosts: map<Name, V>, labels: seq<Name>, i: nat, limit: nat)
    requires limit <= |labels|
    ensures var key := SuffixKey(hosts, labels, i, limit);
            match key
            case None => forall j :: i <= j < limit ==> Wild(labels[j..]) !in hosts
            case Some(k) => exists n: nat :: i <= n < limit && k == Wild(labels[n..]) && k in hosts
                              && forall j :: i <= j < n ==> Wild(labels[j..]) !in hosts
    decreases limit - i
  {
    if i < limit && Wild(labels[i..]) !in hosts {
      SuffixKeyIsFirst(hosts, labels, i + 1, limit);
    }
  }

  /** findHostConfig returns the most specific entry: nothing exactly when no key covers the name, the exact key
      whenever it exists, and otherwise the longest key that covers the name. */
  lemma {:induction false} FindKeyIsMostSpecific<V>(hosts: map<Name, V>, name: Name)
    ensures FindKey(hosts, name) == None <==> (forall k :: k in hosts ==> !Covers(k, name))
    ensures FindKey(hosts, name).Some? ==>
              var key := FindKey(hosts, name).value;
              && key in hosts && Covers(key, name)
              && (name in hosts && !IsWild(name) ==> key == name)
              && (key != name || IsWild(name) ==> forall k :: k in hosts && Covers(k, name) ==> |k| <= |key|)
  {
    var labels := Split(name);
    hide Split, Join;
    SuffixKeyIsFirst(hosts, labels, 0, |labels|);
    var suffix := SuffixKey(hosts, labels, 0, |labels|);
    if suffix.Some? {
      var n: nat :| n < |labels| && suffix.value == Wild(labels[n..])
                    && forall j :: 0 <= j < n ==> Wild(labels[j..]) !in hosts;
      forall k | k in hosts && CoversSuffix(k, labels) ensures |k| <= |suffix.value| {
        var j: nat :| j < |labels| && k == Wild(labels[j..]);
        ShorterSuffix(labels, n, j);
      }
    }
  }

  // ---------------------------------------------------------------- the proxies' lookup

  /** The lookup of the HTTP and SNI proxies: direct key, then wildcards of at least two labels. */
  function ProxyKey<V>(hosts: map<Name, V>, name: Name): Option<Name>
  {
    if name in hosts then Some(name)
    else SuffixKey(hosts, Split(name), 0, |Split(name)| - 1)
  }

  method ResolveProxyHost<V>(hosts: map<Name, V>, hostname: Name) returns (r: Option<V>)
    ensures match ProxyKey(hosts, NormalizeHost(hostname))
            case None => r == None
            case Some(k) => k in hosts && r == Some(hosts[k])
  {
    hide Split, Join, NormalizeHost;
    var name := NormalizeHost(hostname);
    if name in hosts { return Some(hosts[name]); }
    var labels := Split(name);
    var i := 0;
    while i < |labels| - 1
      invariant 0 <= i <= |labels| - 1
      invariant SuffixKey(hosts, labels, i, |labels| - 1) == SuffixKey(hosts, labels, 0, |labels| - 1)
    {
      var wildcard := Wild(labels[i..]);
      if wildcard in hosts { return Some(hosts[wildcard]); }
      i := i + 1;
    }
    return None;
  }

  /** A wildcard over at least the last two labels of the name covers it for the proxies. */
  ghost predicate CoversTwo(key: Name, name: Name)
  {
    exists i: nat :: i + 2 <= |Split(name)| && key == [42, 46] + Join(Split(name)[i..])
  }

  /** The proxies find nothing exactly when neither the name is a key nor a wildcard over two of its labels or more;
      they prefer the name itself, and then the longest such wildcard. */
  lemma {:induction false} ProxyKeyExactly<V>(hosts: map<Name, V>, name: Name)
    ensures var key := ProxyKey(hosts, name);
            && (key == None <==> name !in hosts && forall k :: k in hosts ==> !CoversTwo(k, name))
            && (name in hosts ==> key == Some(name))
            && (key.Some? && name !in hosts ==>
                  key.value in hosts && CoversTwo(key.value, name)
                  && forall k :: k in hosts && CoversTwo(k, name) ==> |k| <= |key.value|)
  {
    var labels := Split(name);
    hide Split, Join;
    SuffixKeyIsFirst(hosts, labels, 0, |labels| - 1);
    var suffix := SuffixKey(hosts, labels, 0, |labels| - 1);
    if suffix.Some? {
      var n: nat :| n < |labels| - 1 && suffix.value == Wild(labels[n..])
                    && forall j :: 0 <= j < n ==> Wild(labels[j..]) !in hosts;
      assert CoversTwo(suffix.value, name);
      forall k | k in hosts && CoversTwo(k, name) ensures |k| <= |suffix.value| {
        var j: nat :| j + 2 <= |labels| && k == Wild(labels[j..]);
        ShorterSuffix(labels, n, j);
      }
    }
  }

  lemma {:induction false} SuffixKeySplits<V>(hosts: map<Name, V>, labels: seq<Name>, i: nat)
    requires i < |labels|
    ensures SuffixKey(hosts, labels, i, |labels|) ==
            var short := SuffixKey(hosts, labels, i, |labels| - 1);
            if short.Some? then short
            else if Wild(labels[|labels| - 1..]) in hosts then Some(Wild(labels[|labels| - 1..])) else None
    decreases |labels| - i
  {
    if i < |labels| - 1 && Wild(labels[i..]) !in hosts {
      SuffixKeySplits(hosts, labels, i + 1);
    }
  }

  predicate NoStar(s: Name) { STAR !in s }

  /** The keys the schema admits: "*", a host name, or "*." and a host name; a host name has no star. */
  ghost predicate SchemaKeys<V>(hosts: map<Name, V>)
  {
    forall k :: k in hosts ==> k == ANY || NoStar(k) || ([STAR, DOT] <= k && NoStar(k[2..]))
  }

  /** What the resolver finds, in terms of the proxies' lookup: their entry whenever they find one; otherwise the
      wildcard over the last label, then "*". */
  ghost predicate Agrees<V>(hosts: map<Name, V>, name: Name)
  {
    FindKey(hosts, name) ==
      var last := Wild(Split(name)[|Split(name)| - 1..]);
      if ProxyKey(hosts, name).Some? then ProxyKey(hosts, name)
      else if last in hosts then Some(last)
      else if ANY in hosts then Some(ANY) else None
  }

  /** Resolver and proxies never find different entries: on the schema's keys for every name, and on any keys for
      every name that is not itself a wildcard. */
  lemma {:induction false} LookupsAgree<V>(hosts: map<Name, V>, name: Name)
    requires SchemaKeys(hosts) || !IsWild(name)
    ensures Agrees(hosts, name)
  {
    SuffixKeySplits(hosts, Split(name), 0);
    if IsWild(name) {
      WildNameIsFound(hosts, name);
    }
  }

  /** For a wildcard name the first suffix is no key, and the second, if there is one, gives the name itself. */
  lemma {:induction false} WildNameIsFound<V>(hosts: map<Name, V>, name: Name)
    requires SchemaKeys(hosts) && IsWild(name)
    ensures Wild(Split(name)) !in hosts
    ensures name == ANY ==> Split(name) == [ANY]
    ensures name != ANY ==> |Split(name)| >= 2 && Wild(Split(name)[1..]) == name
  {
    JoinSplit(name);
    var twice := Wild(Split(name));
    assert twice[2..] == name && name[0] == STAR && twice[0] == STAR && STAR in name && STAR in twice;
    if name != ANY {
      assert name == [STAR] + [DOT] + name[2..];
      SplitPrefix([STAR], name[2..]);
      JoinSplit(name[2..]);
      assert Split(name)[1..] == Split(name[2..]);
    } else {
      SplitAtomic(name);
    }
  }

  // ---------------------------------------------------------------- the firewall's domain test

  /** matchDomain */
  predicate MatchDomain(domain: Name, pattern: Name)
  {
    || pattern == ANY
    || NormalizeHost(pattern) == NormalizeHost(domain)
    || (&& [STAR, DOT] <= NormalizeHost(pattern)
        && EndsWith(NormalizeHost(domain), [DOT] + NormalizeHost(pattern)[2..]))
  }

  /** The labels of `s` are the last labels of `d`, and `d` has more. */
  ghost predicate ProperLabelSuffix(d: Name, s: Name)
  {
    |Split(s)| < |Split(d)| && Split(d)[|Split(d)| - |Split(s)|..] == Split(s)
  }

  lemma {:induction false} JoinAppend(a: seq<Name>, b: seq<Name>)
    requires a != [] && b != []
    ensures Join(a + b) == Join(a) + [DOT] + Join(b)
    decreases |a|
  {
    assert (a + b)[1..] == a[1..] + b;
    if |a| > 1 {
      JoinAppend(a[1..], b);
    } else {
      assert a[1..] + b == b;
    }
  }

  lemma SuffixIsLabels(d: Name, s: Name, p: Name)
    requires d == p + [DOT] + s
    ensures ProperLabelSuffix(d, s)
  {
    SplitAppend(p, s);
    hide Split;
    assert (Split(p) + Split(s))[|Split(p)|..] == Split(s);
  }

  lemma LabelsAreSuffix(d: Name, s: Name)
    requires ProperLabelSuffix(d, s)
    ensures EndsWith(d, [DOT] + s)
  {
    hide Split, Join;
    var front := Split(d)[..|Split(d)| - |Split(s)|];
    JoinSplit(d);
    JoinSplit(s);
    assert Split(d) == front + Split(s);
    JoinAppend(front, Split(s));
    assert d == Join(front) + ([DOT] + s);
  }

  /** The string test "ends with a dot and the suffix" is the label test. */
  lemma {:induction false} SuffixTestIsLabelTest(d: Name, s: Name)
    ensures EndsWith(d, [DOT] + s) <==> ProperLabelSuffix(d, s)
  {
    hide ProperLabelSuffix;
    if ProperLabelSuffix(d, s) {
      LabelsAreSuffix(d, s);
    } else if EndsWith(d, [DOT] + s) {
      var p := d[..|d| - |[DOT] + s|];
      assert d == p + ([DOT] + s) == p + [DOT] + s;
      SuffixIsLabels(d, s, p);
    }
  }

  /** What a pattern should match, in terms of labels: "*" every name, a wildcard the strict subdomains of the rest, and
      any other pattern the one name it spells. */
  ghost predicate MatchesLabels(domain: Name, pattern: Name)
  {
    var d, p := NormalizeHost(domain), NormalizeHost(pattern);
    || pattern == [42]
    || (if [42, 46] <= p then ProperLabelSuffix(d, p[2..]) else Split(d) == Split(p))
  }

  ghost predicate SomeMatches(domain: Name, patterns: seq<Name>)
  {
    exists i :: 0 <= i < |patterns| && MatchesLabels(domain, patterns[i])
  }

  /** The string tests are the label tests, whatever the spelling of the pattern. */
  lemma {:induction false} PatternMatchesExactly(domain: Name, pattern: Name)
    ensures MatchDomain(domain, pattern) <==> MatchesLabels(domain, pattern)
  {
    hide ProperLabelSuffix, Split;
    var d, p := NormalizeHost(domain), NormalizeHost(pattern);
    JoinSplit(d);
    JoinSplit(p);
    hide NormalizeHost, Join;
    if [STAR, DOT] <= p {
      SuffixTestIsLabelTest(d, p[2..]);
      if d == p {
        assert d == [STAR] + [DOT] + p[2..];
        SuffixIsLabels(d, p[2..], [STAR]);
      }
    }
  }

  /** Two names normalise alike exactly when they differ in the case of letters and one trailing dot only. */
  lemma {:induction false} NormalizeExactly(a: Name, b: Name)
    ensures NormalizeHost(a) == NormalizeHost(b) <==> SameButCase(WithoutDot(a), WithoutDot(b))
  {
    NormalizedWithoutDot(a);
    NormalizedWithoutDot(b);
    LowerExactly(WithoutDot(a), WithoutDot(b));
  }

  /** The name without its last octet when that is a dot. */
  function WithoutDot(name: Name): Name
  {
    if name != [] && name[|name| - 1] == 46 then name[..|name| - 1] else name
  }

  lemma NormalizedWithoutDot(name: Name)
    ensures NormalizeHost(name) == Lower(WithoutDot(name))
  {
    if name != [] {
      assert Lower(name)[|name| - 1] == DOT <==> name[|name| - 1] == 46;
      assert Lower(name)[..|name| - 1] == Lower(name[..|name| - 1]);
    }
  }

  datatype DomainPolicy = DomainPolicy(allow: seq<Name>, block: seq<Name>, defaultAllow: bool)

  predicate MatchesAny(domain: Name, patterns: seq<Name>)
  {
    exists i :: 0 <= i < |patterns| && MatchDomain(domain, patterns[i])
  }

  /** Blocking wins over allowing, and allowing over the default. */
  predicate DomainVerdict(domain: Name, policy: Option<DomainPolicy>)
  {
    policy.Some? ==>
      && !MatchesAny(domain, policy.value.block)
      && (MatchesAny(domain, policy.value.allow) || policy.value.defaultAllow)
  }

  /** true is ALLOW */
  method EvaluateDomain(domain: Name, fw: Option<DomainPolicy>) returns (allow: bool)
    ensures allow == DomainVerdict(domain, fw)
  {
    hide MatchDomain;
    if fw.None? { return true; }
    var p := fw.value;
    for i := 0 to |p.block|
      invariant forall j :: 0 <= j < i ==> !MatchDomain(domain, p.block[j])
    {
      if MatchDomain(domain, p.block[i]) { return false; }
    }
    for i := 0 to |p.allow|
      invariant forall j :: 0 <= j < i ==> !MatchDomain(domain, p.allow[j])
    {
      if MatchDomain(domain, p.allow[i]) { return true; }
    }
    return p.defaultAllow;
  }

  lemma {:induction false} SomeMatchesExactly(domain: Name, patterns: seq<Name>)
    ensures MatchesAny(domain, patterns) <==> SomeMatches(domain, patterns)
  {
    hide MatchDomain, MatchesLabels;
    forall i | 0 <= i < |patterns| ensures MatchDomain(domain, patterns[i]) <==> MatchesLabels(domain, patterns[i]) {
      PatternMatchesExactly(domain, patterns[i]);
    }
  }

  /** The laws of a domain policy, by labels: a blocked name is denied whatever else the policy says, an allowed one
      that is not blocked is permitted whatever the default, any other gets the default, and no policy permits all. */
  lemma {:induction false} DomainLaws(domain: Name, p: DomainPolicy)
    ensures SomeMatches(domain, p.block) ==> !DomainVerdict(domain, Some(p))
    ensures !SomeMatches(domain, p.block) && SomeMatches(domain, p.allow) ==> DomainVerdict(domain, Some(p))
    ensures !SomeMatches(domain, p.block) && !SomeMatches(domain, p.allow) ==>
              DomainVerdict(domain, Some(p)) == p.defaultAllow
    ensures DomainVerdict(domain, None)
  {
    SomeMatchesExactly(domain, p.block);
    SomeMatchesExactly(domain, p.allow);
  }

  /** Allowing more or blocking less never turns permission into denial. */
  lemma {:induction false} DomainVerdictIsMonotone(domain: Name, p: DomainPolicy, q: DomainPolicy)
    requires (forall x :: x in p.allow ==> x in q.allow) && (forall x :: x in q.block ==> x in p.block)
    requires p.defaultAllow ==> q.defaultAllow
    ensures DomainVerdict(domain, Some(p)) ==> DomainVerdict(domain, Some(q))
  {
    hide MatchDomain;
    MatchesAnyGrows(domain, p.allow, q.allow);
    MatchesAnyGrows(domain, q.block, p.block);
  }

  lemma MatchesAnyGrows(domain: Name, a: seq<Name>, b: seq<Name>)
    requires forall x :: x in a ==> x in b
    ensures MatchesAny(domain, a) ==> MatchesAny(domain, b)
  {
    if i :| 0 <= i < |a| && MatchDomain(domain, a[i]) {
      assert a[i] in b;
      var j :| 0 <= j < |b| && b[j] == a[i];
    }
  }

  /** The verdict depends on the domain only up to letter case and one trailing dot. */
  lemma {:induction false} VerdictIgnoresCaseAndDot(domain: Name, policy: Option<DomainPolicy>)
    ensures DomainVerdict(Lower(domain), policy) == DomainVerdict(domain, policy)
    ensures domain != [] && domain[|domain| - 1] != DOT ==>
              DomainVerdict(domain + [DOT], policy) == DomainVerdict(domain, policy)
  {
    assert Lower(Lower(domain)) == Lower(domain);
    SameNormalSameVerdict(Lower(domain), domain, policy);
    if domain != [] && domain[|domain| - 1] != DOT {
      var d := domain + [DOT];
      assert Lower(d)[..|domain|] == Lower(domain);
      SameNormalSameVerdict(d, domain, policy);
    }
  }

  lemma SameNormalSameVerdict(d: Name, e: Name, policy: Option<DomainPolicy>)
    requires NormalizeHost(d) == NormalizeHost(e)
    ensures DomainVerdict(d, policy) == DomainVerdict(e, policy)
  {
    forall p ensures MatchDomain(d, p) == MatchDomain(e, p) {}
  }
}
