/** The fixed-budget record stream: a prefix of the records, and how many were left out. */
module ContextStream {
  import opened Seqs
  import opened Decimal

  function Joined(records: seq<string>): string {
    if records == [] then "" else Joined(records[..|records| - 1]) + records[|records| - 1]
  }

  const MARK := "X\tTRUNCATED\t"

  function Truncation(withheld: nat): string {
    MARK + Itoa(withheld) + "\n"
  }

  function Reserve(records: seq<string>): nat {
    |MARK| + |Itoa(|records|)| + 1
  }

  /** The most leading records, from `k` on, that stay within `limit`. */
  function Kept(records: seq<string>, limit: int, k: nat): (kept: nat)
    requires k <= |records|
    ensures k <= kept <= |records|
    decreases |records| - k
  {
    if k < |records| && |Joined(records[..k + 1])| <= limit then Kept(records, limit, k + 1) else k
  }

  function Stream(records: seq<string>, budget: int): string {
    if |Joined(records)| <= budget then Joined(records)
    else
      var kept := Kept(records, budget - Reserve(records), 0);
      Joined(records[..kept]) + Truncation(|records| - kept)
  }

  method BuildContextStream(records: seq<string>, budget: int) returns (out: string)
    ensures out == Stream(records, budget)
  {
    hide Itoa;
    var total := 0;
    for i := 0 to |records|
      invariant total == |Joined(records[..i])|
    {
      JoinedNext(records, i);
      total := total + |records[i]|;
    }
    assert records[..|records|] == records;
    if total <= budget {
      return Joined(records);
    }
    var limit := budget - Reserve(records);
    out := "";
    var kept := 0;
    while kept < |records|
      invariant 0 <= kept <= |records| && out == Joined(records[..kept])
      invariant Kept(records, limit, kept) == Kept(records, limit, 0)
    {
      JoinedNext(records, kept);
      if |out| + |records[kept]| > limit {
        break;
      }
      out := out + records[kept];
      kept := kept + 1;
    }
    out := out + Truncation(|records| - kept);
  }

  lemma JoinedNext(records: seq<string>, i: nat)
    requires i < |records|
    ensures Joined(records[..i + 1]) == Joined(records[..i]) + records[i]
  {
    assert records[..i + 1][..i] == records[..i];
  }

  lemma {:induction false} KeptIsLongest(records: seq<string>, limit: int, k: nat)
    requires k <= |records| && (k == 0 || |Joined(records[..k])| <= limit)
    ensures
      var kept := Kept(records, limit, k);
      && (kept == 0 || |Joined(records[..kept])| <= limit)
      && forall j :: kept < j <= |records| ==> |Joined(records[..j])| > limit
    decreases |records| - k
  {
    if k < |records| && |Joined(records[..k + 1])| <= limit {
      KeptIsLongest(records, limit, k + 1);
    } else {
      forall j | k < j <= |records|
        ensures |Joined(records[..j])| > limit
      {
        JoinedGrows(records, k + 1, j);
      }
    }
  }

  lemma {:induction false} JoinedGrows(records: seq<string>, i: nat, j: nat)
    requires i <= j <= |records|
    ensures |Joined(records[..i])| <= |Joined(records[..j])|
    decreases j - i
  {
    if i < j {
      JoinedGrows(records, i, j - 1);
      JoinedNext(records, j - 1);
    }
  }

  /** The stream is every record when they fit; otherwise the longest prefix that
      leaves room for the mark, and the mark counts exactly the rest. */
  lemma StreamKeepsLongestPrefix(records: seq<string>, budget: int)
    requires |Joined(records)| > budget
    ensures
      var kept := Kept(records, budget - Reserve(records), 0);
      && Stream(records, budget) == Joined(records[..kept]) + "X\tTRUNCATED\t" + Itoa(|records| - kept) + "\n"
      && forall j :: 0 < j <= |records| ==> (j <= kept <==> |Joined(records[..j])| <= budget - Reserve(records))
  {
    hide Itoa, Reserve, Joined, Kept;
    var limit := budget - Reserve(records);
    KeptIsLongest(records, limit, 0);
    var kept := Kept(records, limit, 0);
    assert Joined(records[..kept]) + Truncation(|records| - kept)
        == Joined(records[..kept]) + "X\tTRUNCATED\t" + Itoa(|records| - kept) + "\n";
    forall j | 0 < j <= |records|
      ensures j <= kept <==> |Joined(records[..j])| <= limit
    {
      if j <= kept {
        JoinedGrows(records, j, kept);
      }
    }
  }

  /** The budget is a hard limit exactly when everything fits or the budget covers the
      reserve for the mark. */
  lemma StreamWithinBudgetIff(records: seq<string>, budget: int)
    ensures |Stream(records, budget)| <= budget <==> |Joined(records)| <= budget || Reserve(records) <= budget
  {
    hide Itoa, Kept, Joined;
    if |Joined(records)| > budget {
      var limit := budget - Reserve(records);
      KeptIsLongest(records, limit, 0);
      var kept := Kept(records, limit, 0);
      ItoaLengthMonotone(|records| - kept, |records|);
      NothingKept(records, limit);
    }
  }

  lemma NothingKept(records: seq<string>, limit: int)
    ensures |Joined(records[..0])| == 0 && (limit < 0 ==> Kept(records, limit, 0) == 0)
  {
    assert records[..0] == [];
  }
}
