/**
 The counting part of `printResults`: every stored answer is read as tokens by
 the active question and every token occurrence is counted. Its result is
 pinned down by the reference `TokenBag`, so every visiting order of the
 stored answers produces the same counts.
 */
module Report {
  import opened Questions
  import opened Voting
  import opened Counting
  import opened Bags

  /**
   The per-token counts `printResults` prints: every stored answer is read as
   tokens by the active question and every token occurrence is counted. The
   stored answers are visited in an arbitrary order, as a hash map yields them.
   */
  method Results(svc: Service) returns (counts: map<string, nat>)
    requires Reportable(svc)
    ensures counts == CountsOf(TokenBag(svc))
  {
    if svc.question.None? {
      counts := map[];
      return;
    }
    var q := svc.question.value;
    counts := CountAll(ListsOf(Reader(q), svc.subs));
  }
}
