/**
 * One run of the scraper (scraper_to_sheets.py lines 56-117): build the
 * index from the existing records, turn every fetched article into a
 * candidate row, keep the candidates the index does not know, and append
 * them to the sheet.  The index is never updated inside the loop, so two
 * fetched articles that are copies of each other are both kept.
 */
module Ingest {
  import opened Wrappers
  import opened Articles
  import opened Dedup
  import opened Sheet

  /** The candidate built from each fetched article, in fetch order. */
  function Candidates(articles: seq<RawArticle>, parse: string -> Option<string>, score: string -> real): (ms: seq<Mention>)
    ensures |ms| == |articles|
  {
    seq(|articles|, i requires 0 <= i < |articles| => Candidate(articles[i], parse, score))
  }

  /** The rows of the candidates the index does not know, in order: a specification of the loop. */
  function Keep(ms: seq<Mention>, index: Index): (rows: seq<seq<string>>)
    ensures |rows| <= |ms|
    decreases |ms|
  {
    if ms == [] then []
    else
      var m := ms[|ms| - 1];
      Keep(ms[..|ms| - 1], index) + (if IsDuplicate(m, index) then [] else [Row(m)])
  }

  /** The row of every candidate, duplicate or not. */
  function Rows(ms: seq<Mention>): (rows: seq<seq<string>>)
    ensures |rows| == |ms|
  {
    seq(|ms|, i requires 0 <= i < |ms| => Row(ms[i]))
  }

  /** `xs` is obtained from `ys` by deleting elements, without reordering what is left. */
  ghost predicate IsSubsequence<T>(xs: seq<T>, ys: seq<T>)
    decreases |ys|
  {
    if ys == [] then xs == []
    else
      || IsSubsequence(xs, ys[..|ys| - 1])
      || (xs != [] && xs[|xs| - 1] == ys[|ys| - 1] && IsSubsequence(xs[..|xs| - 1], ys[..|ys| - 1]))
  }

  lemma {:induction false} SubsequenceNoLonger<T>(xs: seq<T>, ys: seq<T>)
    requires IsSubsequence(xs, ys)
    ensures |xs| <= |ys|
    decreases |ys|
  {
    if ys != [] {
      if IsSubsequence(xs, ys[..|ys| - 1]) {
        SubsequenceNoLonger(xs, ys[..|ys| - 1]);
      } else {
        SubsequenceNoLonger(xs[..|xs| - 1], ys[..|ys| - 1]);
      }
    }
  }

  /** Appending one element to the longer sequence, or to both, keeps a subsequence a subsequence. */
  lemma SubsequenceSnoc<T>(xs: seq<T>, ys: seq<T>, y: T)
    requires IsSubsequence(xs, ys)
    ensures IsSubsequence(xs, ys + [y])
    ensures IsSubsequence(xs + [y], ys + [y])
  {
    assert (ys + [y])[..|ys|] == ys;
    assert (xs + [y])[..|xs|] == xs;
  }

  /** The rows of a prefix of the candidates are a prefix of their rows. */
  lemma RowsOfInit(ms: seq<Mention>)
    requires ms != []
    ensures Rows(ms) == Rows(ms[..|ms| - 1]) + [Row(ms[|ms| - 1])]
  {
    assert forall i :: 0 <= i < |ms| - 1 ==> ms[..|ms| - 1][i] == ms[i];
  }

  /** The kept rows are the candidates' rows with the duplicates deleted, in fetch order. */
  lemma {:induction false} KeepSubsequence(ms: seq<Mention>, index: Index)
    ensures IsSubsequence(Keep(ms, index), Rows(ms))
    ensures |Keep(ms, index)| <= |ms|
    decreases |ms|
  {
    if ms != [] {
      var n := |ms| - 1;
      KeepSubsequence(ms[..n], index);
      RowsOfInit(ms);
      SubsequenceSnoc(Keep(ms[..n], index), Rows(ms[..n]), Row(ms[n]));
      if IsDuplicate(ms[n], index) {
        assert Keep(ms, index) == Keep(ms[..n], index);
      } else {
        assert Keep(ms, index) == Keep(ms[..n], index) + [Row(ms[n])];
      }
    } else {
      assert Rows(ms) == [];
    }
    SubsequenceNoLonger(Keep(ms, index), Rows(ms));
  }

  /**
   * A row is kept exactly when it is the row of some candidate that the
   * index does not know; every kept row has the six header columns.
   */
  lemma {:induction false} KeepMembers(ms: seq<Mention>, index: Index)
    ensures forall r :: r in Keep(ms, index) <==>
      exists i :: 0 <= i < |ms| && !IsDuplicate(ms[i], index) && r == Row(ms[i])
    decreases |ms|
  {
    if ms != [] {
      var n := |ms| - 1;
      var init := ms[..n];
      KeepMembers(init, index);
      forall r | r in Keep(ms, index)
        ensures exists i :: 0 <= i < |ms| && !IsDuplicate(ms[i], index) && r == Row(ms[i])
      {
        if r in Keep(init, index) {
          var i :| 0 <= i < n && !IsDuplicate(init[i], index) && r == Row(init[i]);
          assert init[i] == ms[i];
        } else {
          assert r == Row(ms[n]);
        }
      }
      forall i | 0 <= i < |ms| && !IsDuplicate(ms[i], index)
        ensures Row(ms[i]) in Keep(ms, index)
      {
        if i < n {
          assert init[i] == ms[i];
        }
      }
    }
  }

  /** With no candidate kept there is no row: the kept rows are exactly those of unknown candidates. */
  lemma KeepNoneUnknown(ms: seq<Mention>, index: Index)
    requires forall i :: 0 <= i < |ms| ==> IsDuplicate(ms[i], index)
    ensures Keep(ms, index) == []
  {
    KeepMembers(ms, index);
  }

  /** The indices of the candidates the index does not know. */
  function Unknown(ms: seq<Mention>, index: Index): set<nat>
  {
    set i: nat | i < |ms| && !IsDuplicate(ms[i], index)
  }

  /** Exactly one row is kept per candidate the index does not know. */
  lemma {:induction false} KeepCount(ms: seq<Mention>, index: Index)
    ensures |Keep(ms, index)| == |Unknown(ms, index)|
    decreases |ms|
  {
    if ms != [] {
      var n := |ms| - 1;
      KeepCount(ms[..n], index);
      assert forall i :: 0 <= i < n ==> ms[..n][i] == ms[i];
      if IsDuplicate(ms[n], index) {
        assert Unknown(ms, index) == Unknown(ms[..n], index);
      } else {
        assert Unknown(ms, index) == Unknown(ms[..n], index) + {n};
      }
    }
  }

  /**
   * The index is fixed for the whole batch: the loop over a batch split in
   * two gives the concatenation of the two results.
   */
  lemma {:induction false} KeepConcat(xs: seq<Mention>, ys: seq<Mention>, index: Index)
    ensures Keep(xs + ys, index) == Keep(xs, index) + Keep(ys, index)
    decreases |ys|
  {
    if ys == [] {
      assert xs + ys == xs;
    } else {
      var n := |ys| - 1;
      assert (xs + ys)[..|xs + ys| - 1] == xs + ys[..n];
      KeepConcat(xs, ys[..n], index);
    }
  }

  /**
   * No deduplication inside a batch: two candidates that share a link or a
   * signature the index does not know are both kept, in order.
   */
  lemma BothCopiesKept(m: Mention, n: Mention, index: Index)
    requires !IsDuplicate(m, index) && !IsDuplicate(n, index)
    ensures Keep([m, n], index) == [Row(m), Row(n)]
  {
    assert [m, n][..1] == [m];
    assert [m][..0] == [];
    assert Keep([m], index) == [Row(m)];
  }

  /**
   * The loop over the fetched articles (lines 75-100): builds each candidate,
   * skips it when the index knows its link or its signature, and otherwise
   * appends its row to the result.
   */
  method CollectNewRows(articles: seq<RawArticle>, index: Index,
                        parse: string -> Option<string>, score: string -> real)
    returns (newRows: seq<seq<string>>)
    ensures newRows == Keep(Candidates(articles, parse, score), index)
    ensures |newRows| <= |articles|
    ensures forall r :: r in newRows ==> |r| == |Headers|
  {
    newRows := [];
    ghost var ms := Candidates(articles, parse, score);
    for i := 0 to |articles|
      invariant newRows == Keep(ms[..i], index)
    {
      var m := Candidate(articles[i], parse, score);
      KeepStep(ms, i, index);
      if !IsDuplicate(m, index) {
        newRows := newRows + [Row(m)];
      }
    }
    assert ms[..|articles|] == ms;
    KeepRowsHaveHeaderWidth(ms, index);
  }

  /** One more candidate adds its row to the kept rows, unless the index knows it. */
  lemma KeepStep(ms: seq<Mention>, i: nat, index: Index)
    requires i < |ms|
    ensures Keep(ms[..i + 1], index) ==
      Keep(ms[..i], index) + (if IsDuplicate(ms[i], index) then [] else [Row(ms[i])])
  {
    assert ms[..i + 1][..i] == ms[..i];
  }

  /** Every kept row has one cell per header. */
  lemma KeepRowsHaveHeaderWidth(ms: seq<Mention>, index: Index)
    ensures forall r :: r in Keep(ms, index) ==> |r| == |Headers|
  {
    KeepMembers(ms, index);
    forall r | r in Keep(ms, index) ensures |r| == |Headers| {
      var i :| 0 <= i < |ms| && !IsDuplicate(ms[i], index) && r == Row(ms[i]);
    }
  }

  /**
   * One run: index the existing records, collect the new rows, append them.
   * Fetching the articles and reading the records are done by the caller.
   */
  method Run(ws: Worksheet, records: seq<Record>, articles: seq<RawArticle>,
             parse: string -> Option<string>, score: string -> real, batchFails: bool)
    returns (appended: nat)
    modifies ws
    ensures appended == |Keep(Candidates(articles, parse, score), BuildIndex(records))| <= |articles|
    ensures appended == |Unknown(Candidates(articles, parse, score), BuildIndex(records))|
    ensures ws.rows == AfterAppend(old(ws.rows), Keep(Candidates(articles, parse, score), BuildIndex(records)))
  {
    var index := BuildIndex(records);
    var newRows := CollectNewRows(articles, index, parse, score);
    AppendNewMentions(ws, newRows, batchFails);
    appended := |newRows|;
    KeepCount(Candidates(articles, parse, score), index);
  }
}
