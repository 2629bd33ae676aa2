/**
 The per-service channel pool (`ServiceChannel`): an ordered rotation of
 channel handles, a host -> handle map used to find a handle on removal, and
 a round-robin counter.
 */
module Channels {
  import opened Wrappers

  /** An opaque channel handle. Two handles are the same channel exactly when
      their ids agree: this is the shared-pointer identity the pool compares. */
  datatype Handle = Handle(id: nat)

  datatype ServiceChannel = ServiceChannel(
    serviceName: string,
    channels: seq<Handle>,          // rotation order used by `Choose`
    hosts: map<string, Handle>,     // host address -> its channel
    index: nat)                     // round-robin counter

  /** The outcome of one selection: the handle handed out (or none) and the
      pool with its counter advanced. */
  datatype Pick = Pick(handle: Option<Handle>, after: ServiceChannel)

  /** The outcome of several consecutive selections. */
  datatype Run = Run(picks: seq<Option<Handle>>, after: ServiceChannel)

  // ---------------------------------------------------------------- invariants

  predicate Distinct(s: seq<Handle>) {
    forall i, j :: 0 <= i < j < |s| ==> s[i] != s[j]
  }

  predicate InjectiveHosts(m: map<string, Handle>) {
    forall a, b :: a in m && b in m && a != b ==> m[a] != m[b]
  }

  /** The invariant that survives every history of appends and removes with
      freshly allocated handles: no handle is in the rotation twice, no two hosts share a
      handle, and every mapped handle is in the rotation. A handle in the
      rotation may still be unmapped (a second append of the same host). */
  predicate Valid(c: ServiceChannel) {
    && Distinct(c.channels)
    && InjectiveHosts(c.hosts)
    && forall host :: host in c.hosts ==> c.hosts[host] in c.channels
  }

  /** The full bookkeeping invariant: the rotation and the host map hold
      exactly the same handles. */
  predicate Consistent(c: ServiceChannel) {
    && Valid(c)
    && forall i :: 0 <= i < |c.channels| ==> c.channels[i] in c.hosts.Values
  }

  // ---------------------------------------------------------------- operations

  /** A new pool for `name`, counter at zero. */
  function NewServiceChannel(name: string): (c: ServiceChannel)
    ensures Consistent(c)
    ensures c.serviceName == name && |c.channels| == 0 && |c.hosts| == 0 && c.index == 0
  {
    ServiceChannel(name, [], map[], 0)
  }

  /** Adds the channel `handle` for `host`. When the channel fails to
      initialise (`initOk` false) nothing changes. Otherwise `handle` joins the
      end of the rotation, and `host` is mapped to it only if `host` had no
      mapping yet: an existing mapping is never overwritten. */
  function Append(c: ServiceChannel, host: string, handle: Handle, initOk: bool): (d: ServiceChannel)
    ensures !initOk ==> d == c
    ensures initOk ==> d.channels == c.channels + [handle]
    ensures initOk ==> d.hosts.Keys == c.hosts.Keys + {host}
    ensures initOk && host !in c.hosts ==> d.hosts[host] == handle
    ensures forall k :: k in c.hosts ==> k in d.hosts && d.hosts[k] == c.hosts[k]
    ensures d.index == c.index && d.serviceName == c.serviceName
  {
    if !initOk then c
    else
      var hosts := if host in c.hosts then c.hosts else c.hosts[host := handle];
      c.(hosts := hosts, channels := c.channels + [handle])
  }

  /** Position of the first occurrence of `h` in `s`, or `|s|` if absent. */
  function IndexOf(s: seq<Handle>, h: Handle): (i: nat)
    ensures i <= |s|
    ensures i < |s| <==> h in s
    ensures i < |s| ==> s[i] == h
    ensures forall j :: 0 <= j < i ==> s[j] != h
  {
    if |s| == 0 then 0
    else if s[0] == h then 0
    else 1 + IndexOf(s[1..], h)
  }

  /** `s` without its element at position `i`: what stood before `i` stays
      put, what stood after moves one place forward. */
  function DeleteAt(s: seq<Handle>, i: nat): (r: seq<Handle>)
    requires i < |s|
    ensures |r| == |s| - 1
    ensures forall a :: 0 <= a < |r| ==> r[a] == (if a < i then s[a] else s[a + 1])
  {
    s[..i] + s[i + 1..]
  }

  /** `s` with its first occurrence of `h` deleted; the others keep their
      order. Putting `h` back at the position it was taken from gives `s`. */
  function RemoveFirst(s: seq<Handle>, h: Handle): (r: seq<Handle>)
    ensures h !in s ==> r == s
    ensures h in s ==> |r| == |s| - 1
    ensures multiset(r) == multiset(s) - multiset{h}
    ensures h in s ==> s == r[..IndexOf(s, h)] + [h] + r[IndexOf(s, h)..]
    ensures h !in r[..IndexOf(s, h)]
  {
    var i := IndexOf(s, h);
    if i == |s| then s
    else
      var r := DeleteAt(s, i);
      assert r == s[..i] + s[i + 1..];
      assert s == s[..i] + [h] + s[i + 1..];
      r
  }

  /** The erase loop over the rotation as the pool runs it: walk from the
      front, erase the first handle equal to `h` and stop. */
  method EraseFirstMatch(s: seq<Handle>, h: Handle) returns (r: seq<Handle>)
    ensures r == RemoveFirst(s, h)
  {
    var k := 0;
    while k < |s|
      invariant k <= |s|
      invariant forall j :: 0 <= j < k ==> s[j] != h
    {
      if s[k] == h {
        return DeleteAt(s, k);
      }
      k := k + 1;
    }
    return s;
  }

  /** Removes the channel mapped to `host`. An unmapped host is a no-op.
      Otherwise the key is erased and only the first occurrence of its
      handle leaves the rotation. */
  function Remove(c: ServiceChannel, host: string): (d: ServiceChannel)
    ensures host !in c.hosts ==> d == c
    ensures host in c.hosts ==> d.hosts.Keys == c.hosts.Keys - {host}
    ensures host in c.hosts ==> d.channels == RemoveFirst(c.channels, c.hosts[host])
    ensures forall k :: k in d.hosts ==> k in c.hosts && d.hosts[k] == c.hosts[k]
    ensures d.index == c.index && d.serviceName == c.serviceName
  {
    if host !in c.hosts then c
    else c.(channels := RemoveFirst(c.channels, c.hosts[host]), hosts := c.hosts - {host})
  }

  /** Round-robin selection. An empty rotation yields none and leaves the
      counter alone; otherwise the handle at `index mod size` is handed out
      and the counter moves on by exactly one. */
  function Choose(c: ServiceChannel): (p: Pick)
    ensures p.handle.None? <==> |c.channels| == 0
    ensures p.handle.None? ==> p.after == c
    ensures p.handle.Some? ==> p.handle.value in c.channels
    ensures p.handle.Some? ==> p.handle.value == c.channels[c.index % |c.channels|]
    ensures p.handle.Some? ==> p.after == c.(index := c.index + 1)
  {
    if |c.channels| == 0 then Pick(None, c)
    else Pick(Some(c.channels[c.index % |c.channels|]), c.(index := c.index + 1))
  }

  /** `n` consecutive selections with no topology change in between. */
  function ChooseRun(c: ServiceChannel, n: nat): (r: Run)
    ensures |r.picks| == n
    decreases n
  {
    if n == 0 then Run([], c)
    else
      var p := Choose(c);
      var rest := ChooseRun(p.after, n - 1);
      Run([p.handle] + rest.picks, rest.after)
  }

  // ---------------------------------------------------------------- lemmas

  lemma AppendPreservesValid(c: ServiceChannel, host: string, handle: Handle, initOk: bool)
    requires Valid(c)
    requires handle !in c.channels
    ensures Valid(Append(c, host, handle, initOk))
  {
    var d := Append(c, host, handle, initOk);
    if initOk {
      forall i, j | 0 <= i < j < |d.channels| ensures d.channels[i] != d.channels[j] {
        if j == |c.channels| {
          assert d.channels[i] == c.channels[i];
        }
      }
    }
  }

  /** A successful append of a host that has no mapping yet keeps the
      rotation and the host map in step. */
  lemma AppendPreservesConsistent(c: ServiceChannel, host: string, handle: Handle, initOk: bool)
    requires Consistent(c)
    requires handle !in c.channels
    requires host !in c.hosts
    ensures Consistent(Append(c, host, handle, initOk))
  {
    AppendPreservesValid(c, host, handle, initOk);
    var d := Append(c, host, handle, initOk);
    if initOk {
      forall i | 0 <= i < |d.channels| ensures d.channels[i] in d.hosts.Values {
        if i < |c.channels| {
          assert c.channels[i] in c.hosts.Values;
          var k :| k in c.hosts && c.hosts[k] == c.channels[i];
          assert d.hosts[k] == d.channels[i];
        } else {
          assert d.hosts[host] == d.channels[i];
        }
      }
    }
  }

  /** Appending a host that is already mapped leaves the second handle in
      the rotation with no host pointing at it, so the pool is no longer
      consistent; removing that host afterwards takes out only the first
      handle, and the second stays selectable while no host maps to it. */
  lemma DuplicateAppendOrphans(c: ServiceChannel, host: string, h1: Handle, h2: Handle)
    requires Valid(c)
    requires host !in c.hosts
    requires h1 != h2 && h1 !in c.channels && h2 !in c.channels
    ensures var d := Append(Append(c, host, h1, true), host, h2, true);
            var e := Remove(d, host);
            && d.hosts[host] == h1
            && !Consistent(d)
            && e.channels == c.channels + [h2]
            && h2 !in e.hosts.Values
  {
    var d := Append(Append(c, host, h1, true), host, h2, true);
    assert d.channels == c.channels + [h1, h2];
    assert d.hosts == c.hosts[host := h1];
    UnmappedAfterDuplicate(c, host, h1, h2);
    assert d.channels[|c.channels| + 1] == h2;
    RemoveAfterDuplicate(c, host, h1, h2);
  }

  lemma UnmappedAfterDuplicate(c: ServiceChannel, host: string, h1: Handle, h2: Handle)
    requires Valid(c)
    requires h1 != h2 && h2 !in c.channels
    ensures h2 !in c.hosts[host := h1].Values
  {
    var m := c.hosts[host := h1];
    forall k | k in m ensures m[k] != h2 {
      if k != host {
        assert c.hosts[k] in c.channels;
      }
    }
  }

  lemma RemoveAfterDuplicate(c: ServiceChannel, host: string, h1: Handle, h2: Handle)
    requires host !in c.hosts && h1 !in c.channels
    ensures var d := c.(channels := c.channels + [h1, h2], hosts := c.hosts[host := h1]);
            Remove(d, host) == c.(channels := c.channels + [h2])
  {
    RemoveFirstOfAppended(c.channels, h1, h2);
    assert c.hosts[host := h1] - {host} == c.hosts;
  }

  /** A handle appended behind a rotation that did not hold it is the one
      the erase loop finds. */
  lemma RemoveFirstOfAppended(s: seq<Handle>, h1: Handle, h2: Handle)
    requires h1 !in s
    ensures RemoveFirst(s + [h1, h2], h1) == s + [h2]
  {
    var t := s + [h1, h2];
    var i := IndexOf(t, h1);
    assert t[|s|] == h1;
    assert i == |s|;
    assert t[..i] == s;
    assert t[i + 1..] == [h2];
  }

  /** Position `a` of `RemoveFirst(s, h)` holds what position `a` of `s`
      held before the removal point, and position `a + 1` after it. */
  lemma RemoveFirstShift(s: seq<Handle>, h: Handle, a: nat)
    requires h in s
    requires a < |RemoveFirst(s, h)|
    ensures RemoveFirst(s, h)[a] == s[if a < IndexOf(s, h) then a else a + 1]
  {
    assert RemoveFirst(s, h) == DeleteAt(s, IndexOf(s, h));
  }

  lemma DistinctRemoveFirst(s: seq<Handle>, h: Handle)
    requires Distinct(s)
    ensures Distinct(RemoveFirst(s, h))
  {
    var r := RemoveFirst(s, h);
    if h in s {
      forall a, b | 0 <= a < b < |r| ensures r[a] != r[b] {
        RemoveFirstShift(s, h, a);
        RemoveFirstShift(s, h, b);
      }
    }
  }

  /** In a duplicate-free rotation the removal takes `h` out entirely and
      keeps every other handle. */
  lemma DistinctRemoveFirstMembers(s: seq<Handle>, h: Handle, x: Handle)
    requires Distinct(s)
    ensures x in RemoveFirst(s, h) <==> x in s && x != h
  {
    if h in s {
      if x in RemoveFirst(s, h) {
        RemovedWasThere(s, h, x);
      }
      if x in s && x != h {
        OthersStay(s, h, x);
      }
    }
  }

  lemma RemovedWasThere(s: seq<Handle>, h: Handle, x: Handle)
    requires Distinct(s) && h in s
    requires x in RemoveFirst(s, h)
    ensures x in s && x != h
  {
    var r := RemoveFirst(s, h);
    var a :| 0 <= a < |r| && r[a] == x;
    RemoveFirstShift(s, h, a);
    var i := IndexOf(s, h);
    assert s[i] == h;
  }

  lemma OthersStay(s: seq<Handle>, h: Handle, x: Handle)
    requires h in s
    requires x in s && x != h
    ensures x in RemoveFirst(s, h)
  {
    var i := IndexOf(s, h);
    var a :| 0 <= a < |s| && s[a] == x;
    var a' := if a < i then a else a - 1;
    RemoveFirstShift(s, h, a');
  }

  lemma RemovePreservesValid(c: ServiceChannel, host: string)
    requires Valid(c)
    ensures Valid(Remove(c, host))
  {
    if host in c.hosts {
      var d := Remove(c, host);
      DistinctRemoveFirst(c.channels, c.hosts[host]);
      forall k | k in d.hosts ensures d.hosts[k] in d.channels {
        DistinctRemoveFirstMembers(c.channels, c.hosts[host], d.hosts[k]);
      }
    }
  }

  lemma RemovePreservesConsistent(c: ServiceChannel, host: string)
    requires Consistent(c)
    ensures Consistent(Remove(c, host))
  {
    RemovePreservesValid(c, host);
    if host in c.hosts {
      var d := Remove(c, host);
      var h := c.hosts[host];
      forall i | 0 <= i < |d.channels| ensures d.channels[i] in d.hosts.Values {
        var x := d.channels[i];
        DistinctRemoveFirstMembers(c.channels, h, x);
        assert x in c.channels && x != h;
        var k :| k in c.hosts && c.hosts[k] == x;
        assert k != host;
        assert d.hosts[k] == x;
      }
    }
  }

  lemma ChoosePreservesConsistent(c: ServiceChannel)
    requires Consistent(c)
    ensures Consistent(Choose(c).after)
  {
  }

  /** In a consistent pool every handed-out handle is the channel of some host. */
  lemma ChooseReturnsMappedHandle(c: ServiceChannel)
    requires Consistent(c)
    ensures Choose(c).handle.Some? ==>
              exists host :: host in c.hosts && c.hosts[host] == Choose(c).handle.value
  {
    var p := Choose(c);
    if p.handle.Some? {
      var i := c.index % |c.channels|;
      assert c.channels[i] in c.hosts.Values;
    }
  }

  // ------------------------------------------------------------ cardinality

  function Elements(s: seq<Handle>): set<Handle> {
    set x | x in s
  }

  lemma {:induction false} DistinctCardinality(s: seq<Handle>)
    requires Distinct(s)
    ensures |Elements(s)| == |s|
  {
    if |s| > 0 {
      var t := s[..|s| - 1];
      assert Distinct(t);
      DistinctCardinality(t);
      assert Elements(s) == Elements(t) + {s[|s| - 1]};
      assert s[|s| - 1] !in Elements(t);
    }
  }

  lemma {:induction false} InjectiveCardinality(m: map<string, Handle>)
    requires InjectiveHosts(m)
    ensures |m.Values| == |m.Keys|
    decreases |m.Keys|
  {
    if |m.Keys| > 0 {
      var k :| k in m;
      var m' := m - {k};
      assert m'.Keys == m.Keys - {k};
      assert InjectiveHosts(m');
      InjectiveCardinality(m');
      assert m.Values == m'.Values + {m[k]} by {
        forall v | v in m.Values ensures v in m'.Values + {m[k]} {
          var a :| a in m && m[a] == v;
          if a != k { assert m'[a] == v; }
        }
        forall v | v in m'.Values ensures v in m.Values {
          var a :| a in m' && m'[a] == v;
          assert m[a] == v;
        }
      }
      assert m[k] !in m'.Values;
    }
  }

  /** In a consistent pool the rotation and the host map hold the same
      handles, and as many of them as there are hosts. */
  lemma ConsistentSameHandles(c: ServiceChannel)
    requires Consistent(c)
    ensures Elements(c.channels) == c.hosts.Values
    ensures |c.channels| == |c.hosts|
  {
    forall x | x in c.hosts.Values ensures x in Elements(c.channels) {
      var k :| k in c.hosts && c.hosts[k] == x;
    }
    DistinctCardinality(c.channels);
    InjectiveCardinality(c.hosts);
    assert |c.hosts| == |c.hosts.Keys|;
  }

  // ------------------------------------------------------------ round robin

  /** On a stable non-empty pool the k-th of n selections is the handle at
      `(index + k) mod size`, and the counter ends `n` further on. */
  lemma {:induction false} RoundRobin(c: ServiceChannel, n: nat)
    requires |c.channels| > 0
    ensures var r := ChooseRun(c, n);
            && (forall k :: 0 <= k < n ==> r.picks[k] == Some(c.channels[(c.index + k) % |c.channels|]))
            && r.after == c.(index := c.index + n)
    decreases n
  {
    if n > 0 {
      var s := |c.channels|;
      var p := Choose(c);
      assert p.handle == Some(c.channels[c.index % s]);
      assert p.after == c.(index := c.index + 1);
      var rest := ChooseRun(p.after, n - 1);
      RoundRobin(p.after, n - 1);
      var r := ChooseRun(c, n);
      assert r.picks == [p.handle] + rest.picks;
      forall k | 0 <= k < n ensures r.picks[k] == Some(c.channels[(c.index + k) % s]) {
        if k > 0 {
          assert r.picks[k] == rest.picks[k - 1];
          assert p.after.index + (k - 1) == c.index + k;
        }
      }
    }
  }

  lemma {:induction false} MulAtLeast(d: nat, s: nat)
    requires d >= 1
    ensures d * s >= s
    decreases d
  {
    if d > 1 {
      MulAtLeast(d - 1, s);
      assert d * s == (d - 1) * s + s;
    }
  }

  /** Quotient and remainder are determined by `a == q * s + m, 0 <= m < s`. */
  lemma DivModUnique(a: int, s: int, q: int, m: int)
    requires 0 < s && 0 <= m < s && a == q * s + m
    ensures a / s == q && a % s == m
  {
    var q', m' := a / s, a % s;
    assert a == q' * s + m';
    assert (q - q') * s == m' - m;
    if q > q' {
      MulAtLeast(q - q', s);
    } else if q' > q {
      MulAtLeast(q' - q, s);
    }
  }

  lemma DivModStep(n: nat, s: nat, j: nat)
    requires 0 < s && j < s
    ensures (n + 1) / s + (if j < (n + 1) % s then 1 else 0)
         == n / s + (if j < n % s then 1 else 0) + (if j == n % s then 1 else 0)
  {
    var q, m := n / s, n % s;
    assert n == q * s + m;
    if m == s - 1 {
      assert n + 1 == (q + 1) * s + 0;
      DivModUnique(n + 1, s, q + 1, 0);
    } else {
      assert n + 1 == q * s + (m + 1);
      DivModUnique(n + 1, s, q, m + 1);
    }
  }

  /** Fairness: over n selections on a stable duplicate-free rotation of
      size S, from any counter, the handle at position j is handed out
      `n / S` times, plus one if its turn comes up in the final partial
      cycle, that is if `(j - index) mod S < n mod S`. */
  lemma RoundRobinFair(c: ServiceChannel, n: nat, j: nat)
    requires |c.channels| > 0 && Distinct(c.channels)
    requires j < |c.channels|
    ensures multiset(ChooseRun(c, n).picks)[Some(c.channels[j])]
         == n / |c.channels| + (if (j - c.index) % |c.channels| < n % |c.channels| then 1 else 0)
  {
    var ps := ChooseRun(c, n).picks;
    assert Cyclic(ps, c.channels, c.index) by {
      RoundRobin(c, n);
    }
    CountInCycle(ps, c.channels, c.index, j);
  }

  /** `ps` walks the rotation `cs` cyclically, starting at position `start`. */
  predicate Cyclic(ps: seq<Option<Handle>>, cs: seq<Handle>, start: nat)
    requires |cs| > 0
  {
    forall k :: 0 <= k < |ps| ==> ps[k] == Some(cs[(start + k) % |cs|])
  }

  /** Counting in a cyclic walk over a duplicate-free rotation `cs` that
      starts at `start`: position j is visited `|ps| / S` times, plus one if
      the final partial cycle reaches it. */
  lemma {:induction false} CountInCycle(ps: seq<Option<Handle>>, cs: seq<Handle>, start: nat, j: nat)
    requires |cs| > 0 && Distinct(cs) && j < |cs|
    requires Cyclic(ps, cs, start)
    ensures multiset(ps)[Some(cs[j])]
         == |ps| / |cs| + (if (j - start) % |cs| < |ps| % |cs| then 1 else 0)
    decreases |ps|
  {
    if |ps| > 0 {
      var n, s, r := |ps|, |cs|, (j - start) % |cs|;
      var qs := ps[..n - 1];
      var x := Some(cs[j]);
      var before, after := multiset(qs)[x], multiset(ps)[x];
      assert after == before + (if (n - 1) % s == r then 1 else 0) by {
        CountLast(ps, cs, start, j);
      }
      assert before == (n - 1) / s + (if r < (n - 1) % s then 1 else 0) by {
        CountLast(ps, cs, start, j);
        CountInCycle(qs, cs, start, j);
      }
      FairStep(before, after, n, s, r);
    }
  }

  /** The last step of a cyclic walk adds one to the count of position j
      exactly when the walk's length less one is congruent to `j - start`. */
  lemma CountLast(ps: seq<Option<Handle>>, cs: seq<Handle>, start: nat, j: nat)
    requires |cs| > 0 && Distinct(cs) && j < |cs|
    requires Cyclic(ps, cs, start) && |ps| > 0
    ensures Cyclic(ps[..|ps| - 1], cs, start)
    ensures multiset(ps)[Some(cs[j])]
         == multiset(ps[..|ps| - 1])[Some(cs[j])]
            + (if (|ps| - 1) % |cs| == (j - start) % |cs| then 1 else 0)
  {
    var n, s := |ps|, |cs|;
    var qs := ps[..n - 1];
    var i := (start + (n - 1)) % s;
    assert ps == qs + [Some(cs[i])];
    CountSnoc(qs, Some(cs[i]), Some(cs[j]));
    assert (cs[i] == cs[j]) <==> (i == j);
    ModShift(start, n - 1, j, s);
  }

  /** Stepping `k` places from `i` lands on `j` exactly when `k` is
      congruent to `j - i`. */
  lemma ModShift(i: nat, k: nat, j: nat, s: nat)
    requires 0 < s && j < s
    ensures ((i + k) % s == j) <==> (k % s == (j - i) % s)
  {
    var q, r := (j - i) / s, (j - i) % s;
    assert j - i == q * s + r;
    if (i + k) % s == j {
      var q' := (i + k) / s;
      assert i + k == q' * s + j;
      assert k == (q' + q) * s + r;
      DivModUnique(k, s, q' + q, r);
    }
    if k % s == r {
      var qk := k / s;
      assert k == qk * s + r;
      assert i + k == (qk - q) * s + j;
      DivModUnique(i + k, s, qk - q, j);
    }
  }

  /** The count after one more selection, from the count before it. */
  lemma FairStep(before: int, after: int, n: nat, s: nat, j: nat)
    requires 0 < n && 0 < s && j < s
    requires before == (n - 1) / s + (if j < (n - 1) % s then 1 else 0)
    requires after == before + (if (n - 1) % s == j then 1 else 0)
    ensures after == n / s + (if j < n % s then 1 else 0)
  {
    DivModStep(n - 1, s, j);
  }

  lemma CountSnoc<T>(ps: seq<T>, last: T, x: T)
    ensures multiset(ps + [last])[x] == multiset(ps)[x] + (if last == x then 1 else 0)
  {
    assert multiset(ps + [last]) == multiset(ps) + multiset{last};
  }
}
