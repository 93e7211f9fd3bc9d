/** The first load of the Publisher, Author and Category pages: list the
    records; when the list is empty, create the sample records one after
    another, each awaited before the next, then list again. None of the
    three pages catches a failure here, so a failed request ends the run
    where it stands: no further request, no change to the page. */
module Seeding {
  import opened Values

  /** Number of leading successful replies. */
  function LeadingOk<T>(rs: seq<Reply<T>>): (n: nat)
    ensures n <= |rs|
    ensures forall i :: 0 <= i < n ==> rs[i].Ok?
    ensures n < |rs| ==> rs[n].Err?
    decreases |rs|
  {
    if |rs| == 0 || rs[0].Err? then 0 else 1 + LeadingOk(rs[1..])
  }

  /** How many creates a run issues when `n` of them succeed in a row:
      every one up to and including the first that fails. */
  function Attempted(n: nat, total: nat): nat
  {
    if n < total then n + 1 else total
  }

  /** What one first load did: the sample drafts it sent to `create`, in
      order; whether it listed a second time; and the list it stored, if it
      stored one. */
  datatype SeedRun<D, T> = SeedRun(created: seq<D>, relisted: bool, items: Option<seq<T>>)

  /** `samples` are the fixed sample drafts; `first` and `relist` are the
      replies of the two list requests and `createReplies[i]` the reply to
      the create of `samples[i]`. */
  method FetchOrSeed<D, T>(samples: seq<D>, first: Reply<seq<T>>,
                           createReplies: seq<Reply<T>>, relist: Reply<seq<T>>)
    returns (run: SeedRun<D, T>)
    requires |createReplies| == |samples|
    ensures first.Err? ==> run == SeedRun([], false, None)
    ensures first.Ok? && |first.value| > 0 ==> run == SeedRun([], false, Some(first.value))
    ensures first.Ok? && |first.value| == 0 ==>
              var n := LeadingOk(createReplies);
              && run.created == samples[..Attempted(n, |samples|)]
              && run.relisted == (n == |samples|)
              && run.items == (if n == |samples| && relist.Ok? then Some(relist.value) else None)
  {
    if first.Err? {
      return SeedRun([], false, None);
    }
    if |first.value| > 0 {
      return SeedRun([], false, Some(first.value));
    }
    var created := [];
    var i := 0;
    while i < |samples|
      invariant 0 <= i <= |samples|
      invariant i <= LeadingOk(createReplies)
      invariant created == samples[..i]
    {
      created := created + [samples[i]];
      if createReplies[i].Err? {
        return SeedRun(created, false, None);
      }
      i := i + 1;
    }
    assert created == samples;
    if relist.Err? {
      return SeedRun(created, true, None);
    }
    return SeedRun(created, true, Some(relist.value));
  }
}
