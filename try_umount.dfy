/** The process-wide unmount registry used under KernelSU: every path is
    queued at most once, and the queue is flushed with a normal unmount first
    and a detaching one only if that fails. */
module TryUmount {
  import opened Wrappers
  import opened Strs

  /** The flags of the two unmount attempts. */
  const NormalFlags: int := 0
  const DetachFlags: int := 2

  /** The queue after a request for `target`: appended unless already queued. */
  function Sent(list: seq<string>, target: string): (r: seq<string>)
    ensures Elems(r) == Elems(list) + {target}
    ensures target in list ==> r == list
    ensures target !in list ==> r == list + [target]
  {
    if target in list then list else list + [target]
  }

  predicate Distinct(list: seq<string>) {
    forall a, b :: 0 <= a < b < |list| ==> list[a] != list[b]
  }

  /** Requests are idempotent and the queue never holds a path twice. */
  lemma SentIdempotent(list: seq<string>, target: string)
    requires Distinct(list)
    ensures Sent(Sent(list, target), target) == Sent(list, target)
    ensures Distinct(Sent(list, target))
  {
    if target !in list {
      var r := list + [target];
      forall a, b | 0 <= a < b < |r| ensures r[a] != r[b] {
        if b == |list| {
          assert r[a] == list[a];
        }
      }
    }
  }

  /** The flags tried by `commit`, in order, when the unmount with flags 0
      succeeds or not. */
  function Attempts(normalOk: bool): (r: seq<int>)
    ensures |r| >= 1 && r[0] == NormalFlags
    ensures DetachFlags in r <==> !normalOk
    ensures |r| <= 2
  {
    if normalOk then [NormalFlags] else [NormalFlags, DetachFlags]
  }

  /** `HISTORY` and `LIST` of the source, and the `KSU` flag that gates them. */
  class UnmountRegistry {
    var ksu: bool
    var history: set<string>
    var list: seq<string>
    /** The flags last set on the list before an unmount. */
    var flags: int

    ghost predicate Valid()
      reads this
    {
      history == Elems(list) && Distinct(list)
    }

    constructor (ksu: bool)
      ensures Valid()
      ensures this.ksu == ksu && history == {} && list == [] && flags == NormalFlags
    {
      this.ksu := ksu;
      history := {};
      list := [];
      flags := NormalFlags;
    }

    /** `send_unmountable`: a no-op without KernelSU; otherwise the path is
        recorded and queued unless it was seen before. */
    method SendUnmountable(target: string) returns (r: Outcome)
      requires Valid()
      modifies this
      ensures Valid()
      ensures r == Pass
      ensures ksu == old(ksu) && flags == old(flags)
      ensures !ksu ==> history == old(history) && list == old(list)
      ensures ksu ==> history == old(history) + {target} && list == Sent(old(list), target)
    {
      if !ksu {
        return Pass;
      }
      if target in history {
        assert target in Elems(list);
        return Pass;
      }
      SentIdempotent(list, target);
      history := history + {target};
      list := list + [target];
      r := Pass;
    }

    /** `commit`: without KernelSU nothing happens; otherwise the queue is
        unmounted with flags 0 and, only if that fails, with flags 2. A
        failure of the second attempt is only logged. `umountOk` reports
        whether the kernel accepts the unmount with the given flags. */
    method Commit(umountOk: int -> bool) returns (r: Outcome, tried: seq<int>)
      requires Valid()
      modifies this
      ensures Valid()
      ensures r == Pass
      ensures ksu == old(ksu) && history == old(history) && list == old(list)
      ensures !ksu ==> tried == [] && flags == old(flags)
      ensures ksu ==> tried == Attempts(umountOk(NormalFlags)) && flags == tried[|tried| - 1]
    {
      tried := [];
      if !ksu {
        return Pass, tried;
      }
      flags := NormalFlags;
      tried := tried + [flags];
      if !umountOk(flags) {
        flags := DetachFlags;
        tried := tried + [flags];
      }
      r := Pass;
    }
  }
}
