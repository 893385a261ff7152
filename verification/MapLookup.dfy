/** The generated `map_for_cpu` (jevents.py): a search of the mapping table behind two caches of one entry. */
module MapLookup {
  import opened Options

  /** A row of `pmu_events_map`; the row without an architecture ends the table. */
  datatype Entry = Entry(arch: Option<string>, cpuid: string)

  // ----- The search without caches

  /** The first row from `i` on that matches the cpuid, as an index. */
  function FirstMatch(table: seq<Entry>, matches: (string, string) -> bool, cpuid: string, i: nat): Option<nat>
    decreases |table| - i
  {
    if i >= |table| || table[i].arch.None? then None
    else if matches(table[i].cpuid, cpuid) then Some(i)
    else FirstMatch(table, matches, cpuid, i + 1)
  }

  ghost predicate IsRow(table: seq<Entry>, i: nat) {
    i < |table| && forall k :: 0 <= k <= i ==> table[k].arch.Some?
  }

  /** It is the least matching row before the end of the table. */
  lemma {:induction false} FirstMatchIsLeast(table: seq<Entry>, matches: (string, string) -> bool, cpuid: string,
                                             i: nat, n: nat)
    requires i <= |table| && forall k :: 0 <= k < i ==> table[k].arch.Some?
    ensures FirstMatch(table, matches, cpuid, i) == Some(n) <==>
              i <= n && IsRow(table, n) && matches(table[n].cpuid, cpuid)
              && forall k :: i <= k < n ==> !matches(table[k].cpuid, cpuid)
    decreases |table| - i
  {
    if i < |table| && table[i].arch.Some? { FirstMatchIsLeast(table, matches, cpuid, i + 1, n); }
  }

  // ----- The cached search

  /** A string on the heap. */
  class HeapString {
    const text: string
    var freed: bool

    constructor (text: string)
      ensures this.text == text && !freed
    {
      this.text := text;
      freed := false;
    }

    /** No string is freed twice. */
    method Free()
      requires !freed
      modifies this
      ensures freed
    {
      freed := true;
    }
  }

  class MapCache {
    const table: seq<Entry>
    /** Whether a row's pattern matches a cpuid: `strcmp_cpuid_str` returning 0. */
    const matches: (string, string) -> bool
    /** The cpuid of each cpu, if it has one. */
    const cpuidOf: int -> Option<string>

    var hasLastResult: bool
    var lastResultCpu: int
    var lastResultMap: Option<nat>
    var hasLastMapSearch: bool
    var lastSearchCpuid: HeapString?
    var lastSearchMap: Option<nat>

    /** All strings handed out so far. */
    ghost var handedOut: set<HeapString>

    function Uncached(cpu: int): Option<nat> {
      var cpuid := cpuidOf(cpu);
      if cpuid.None? then None else FirstMatch(table, matches, cpuid.value, 0)
    }

    ghost predicate Terminated() {
      exists i :: 0 <= i < |table| && table[i].arch.None?
    }

    /** The cached search has the right result. */
    ghost predicate SearchIsRight()
      reads this, lastSearchCpuid
    {
      && (hasLastMapSearch <==> lastSearchCpuid != null)
      && (lastSearchCpuid != null ==>
            lastSearchCpuid in handedOut && lastSearchMap == FirstMatch(table, matches, lastSearchCpuid.text, 0))
    }

    /** Of all strings handed out exactly those in `live` have not been freed. */
    ghost predicate LiveAre(live: set<HeapString?>)
      reads this, handedOut
    {
      forall s :: s in handedOut ==> (s.freed <==> s !in live)
    }

    ghost predicate Valid()
      reads this, handedOut, lastSearchCpuid
    {
      && Terminated()
      && (hasLastResult ==> lastResultMap == Uncached(lastResultCpu))
      && (hasLastResult && lastSearchCpuid == null ==> cpuidOf(lastResultCpu).None?)
      && SearchIsRight() && LiveAre({lastSearchCpuid})
    }

    constructor (table: seq<Entry>, matches: (string, string) -> bool, cpuidOf: int -> Option<string>)
      requires exists i :: 0 <= i < |table| && table[i].arch.None?
      ensures Valid() && handedOut == {} && lastSearchCpuid == null
      ensures this.table == table && this.matches == matches && this.cpuidOf == cpuidOf
    {
      this.table, this.matches, this.cpuidOf := table, matches, cpuidOf;
      hasLastResult, lastResultCpu, lastResultMap := false, 0, None;
      hasLastMapSearch, lastSearchCpuid, lastSearchMap := false, null, None;
      handedOut := {};
    }

    /** A new string for the cpuid of a cpu. The caller owns it, and every string is recorded here. */
    method GetCpuid(cpu: int) returns (s: HeapString?)
      modifies `handedOut
      ensures s == null <==> cpuidOf(cpu).None?
      ensures s != null ==> fresh(s) && !s.freed && s.text == cpuidOf(cpu).value
      ensures handedOut == old(handedOut) + (if s == null then {} else {s})
    {
      if cpuidOf(cpu).None? {
        s := null;
      } else {
        s := new HeapString(cpuidOf(cpu).value);
        handedOut := handedOut + {s};
      }
    }

    method Search(cpuid: string) returns (row: Option<nat>)
      requires Terminated()
      ensures row == FirstMatch(table, matches, cpuid, 0)
    {
      ghost var end :| 0 <= end < |table| && table[end].arch.None?;
      var i := 0;
      while true
        invariant i <= end
        invariant FirstMatch(table, matches, cpuid, i) == FirstMatch(table, matches, cpuid, 0)
        decreases end - i
      {
        if table[i].arch.None? {
          return None;
        }
        if matches(table[i].cpuid, cpuid) {
          return Some(i);
        }
        i := i + 1;
      }
    }

    /** The second cache: takes over the string, or frees it if it spells the cached one. */
    method SearchOnce(cpuid: HeapString) returns (row: Option<nat>)
      requires Terminated() && SearchIsRight() && LiveAre({lastSearchCpuid, cpuid})
      requires cpuid in handedOut && cpuid != lastSearchCpuid
      modifies `hasLastMapSearch, `lastSearchCpuid, `lastSearchMap, cpuid, lastSearchCpuid
      ensures row == FirstMatch(table, matches, cpuid.text, 0)
      ensures lastSearchCpuid != null && SearchIsRight() && LiveAre({lastSearchCpuid})
    {
      if hasLastMapSearch && lastSearchCpuid.text == cpuid.text {
        row := lastSearchMap;
        cpuid.Free();
      } else {
        row := Search(cpuid.text);
        if lastSearchCpuid != null {
          lastSearchCpuid.Free();
        }
        lastSearchCpuid := cpuid;
        lastSearchMap := row;
        hasLastMapSearch := true;
      }
    }

    /** The search for a cpu behind the second cache; a cpu without a cpuid has no row. */
    method SearchFor(cpu: int) returns (row: Option<nat>)
      requires Terminated() && SearchIsRight() && LiveAre({lastSearchCpuid})
      modifies `hasLastMapSearch, `lastSearchCpuid, `lastSearchMap, `handedOut, lastSearchCpuid
      ensures row == Uncached(cpu)
      ensures SearchIsRight() && LiveAre({lastSearchCpuid})
      ensures lastSearchCpuid == null <==> old(lastSearchCpuid) == null && cpuidOf(cpu).None?
      ensures old(handedOut) <= handedOut && fresh(handedOut - old(handedOut))
      ensures |handedOut| == |old(handedOut)| + (if cpuidOf(cpu).None? then 0 else 1)
    {
      row := None;
      var cpuid := GetCpuid(cpu);
      if cpuid != null {
        row := SearchOnce(cpuid);
      }
    }

    predicate Cached(cpu: int)
      reads this
    {
      hasLastResult && lastResultCpu == cpu
    }

    /**
     * Every call gives the answer of the search without caches. It takes one string, unless the last result
     * is reused or the cpu has no cpuid, and afterwards of all strings exactly the cached one is live.
     */
    method MapForCpu(cpu: int) returns (row: Option<nat>)
      requires Valid()
      modifies this, handedOut
      ensures Valid() && old(handedOut) <= handedOut && fresh(handedOut - old(handedOut))
      ensures |handedOut| == |old(handedOut)| + (if old(Cached(cpu)) || cpuidOf(cpu).None? then 0 else 1)
      ensures lastSearchCpuid == null <==> old(lastSearchCpuid) == null && cpuidOf(cpu).None?
      ensures row == Uncached(cpu)
      ensures cpuidOf(cpu).None? ==> row == None
    {
      if hasLastResult && lastResultCpu == cpu {
        return lastResultMap;
      }
      row := SearchFor(cpu);
      lastResultCpu, lastResultMap := cpu, row;
      hasLastResult := true;
    }
  }

  /** A cpu without a cpuid has no row; one with a cpuid has the least row in front of the end that matches it. */
  lemma UncachedExactly(cache: MapCache, cpu: int, n: nat)
    ensures cache.cpuidOf(cpu).None? ==> cache.Uncached(cpu) == None
    ensures cache.cpuidOf(cpu).Some? ==>
              var cpuid, table := cache.cpuidOf(cpu).value, cache.table;
              cache.Uncached(cpu) == Some(n) <==>
                && n < |table| && (forall k :: 0 <= k <= n ==> table[k].arch.Some?)
                && cache.matches(table[n].cpuid, cpuid)
                && forall k :: 0 <= k < n ==> !cache.matches(table[k].cpuid, cpuid)
  {
    if cache.cpuidOf(cpu).Some? {
      FirstMatchIsLeast(cache.table, cache.matches, cache.cpuidOf(cpu).value, 0, n);
    }
  }

  /**
   * Every sequence of calls on a new cache: all answers are right, and of the strings handed out exactly the
   * cached one is live, or there has been none yet.
   */
  method CallSequence(table: seq<Entry>, matches: (string, string) -> bool, cpuidOf: int -> Option<string>,
                      cpus: seq<int>)
    returns (maps: seq<Option<nat>>, cache: MapCache)
    requires exists i :: 0 <= i < |table| && table[i].arch.None?
    ensures cache.table == table && cache.matches == matches && cache.cpuidOf == cpuidOf
    ensures |maps| == |cpus| && forall i :: 0 <= i < |cpus| ==> maps[i] == cache.Uncached(cpus[i])
    ensures forall i :: 0 <= i < |cpus| && cpuidOf(cpus[i]).None? ==> maps[i] == None
    ensures forall s :: s in cache.handedOut ==> (s.freed <==> s != cache.lastSearchCpuid)
    ensures cache.lastSearchCpuid == null <==> forall i :: 0 <= i < |cpus| ==> cpuidOf(cpus[i]).None?
    ensures cache.lastSearchCpuid == null || cache.lastSearchCpuid in cache.handedOut
  {
    cache := new MapCache(table, matches, cpuidOf);
    maps := [];
    for n := 0 to |cpus|
      invariant fresh(cache) && cache.Valid() && fresh(cache.handedOut)
      invariant cache.table == table && cache.matches == matches && cache.cpuidOf == cpuidOf
      invariant |maps| == n && forall i :: 0 <= i < n ==> maps[i] == cache.Uncached(cpus[i])
      invariant cache.lastSearchCpuid == null <==> forall i :: 0 <= i < n ==> cpuidOf(cpus[i]).None?
    {
      var m := cache.MapForCpu(cpus[n]);
      maps := maps + [m];
    }
  }
}
