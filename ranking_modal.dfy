/**
 * `getRankedData` of the ranking dialog (app/components/RankingModal.tsx): the
 * month's rows ordered by wins, each with its place in a competition ranking,
 * where players with equal wins share a place and the next place skips as many
 * numbers as there were players sharing (1, 1, 3).
 */
module RankingModal {
  import opened Collections

  datatype RankingData = RankingData(playerName: string, wins: int, yearMonth: string)

  /** `{ ...ranking, rank }`. */
  datatype RankedEntry = RankedEntry(data: RankingData, rank: int)

  /** The comparator `b.wins - a.wins` as an order: more wins first. */
  predicate WinsBefore(a: RankingData, b: RankingData) {
    a.wins >= b.wins
  }

  lemma WinsBeforeTotalPreorder()
    ensures TotalPreorder(WinsBefore)
  {
  }

  /** How many rows have more than `w` wins. */
  function CountAbove(s: seq<RankingData>, w: int): (n: nat)
    ensures n <= |s|
  {
    if s == [] then 0 else (if s[0].wins > w then 1 else 0) + CountAbove(s[1..], w)
  }

  /** In a list split into rows above `w` and rows not above it, the first part counts the rows above `w`. */
  lemma {:induction false} CountAboveSplit(s: seq<RankingData>, w: int, i: nat)
    requires i <= |s|
    requires forall j :: 0 <= j < i ==> s[j].wins > w
    requires forall j :: i <= j < |s| ==> s[j].wins <= w
    ensures CountAbove(s, w) == i
  {
    if s != [] {
      CountAboveSplit(s[1..], w, if i == 0 then 0 else i - 1);
    }
  }

  /** In a list ordered by wins, the place of row `i` is one more than the count of rows above it. */
  lemma PlaceOfRow(s: seq<RankingData>, i: nat)
    requires SortedBy(s, WinsBefore) && i < |s|
    requires i == 0 || s[i - 1].wins != s[i].wins
    ensures CountAbove(s, s[i].wins) == i
  {
    CountAboveSplit(s, s[i].wins, i);
  }

  /** Rows from `i` on that are not above `w` leave at most `i` rows above it. */
  lemma {:induction false} CountAboveAtMost(s: seq<RankingData>, w: int, i: nat)
    requires i <= |s|
    requires forall j :: i <= j < |s| ==> s[j].wins <= w
    ensures CountAbove(s, w) <= i
  {
    if s != [] {
      CountAboveAtMost(s[1..], w, if i == 0 then 0 else i - 1);
    }
  }

  /** Fewer wins never means fewer rows above. */
  lemma {:induction false} CountAboveAntitone(s: seq<RankingData>, v: int, w: int)
    requires v <= w
    ensures CountAbove(s, w) <= CountAbove(s, v)
  {
    if s != [] {
      CountAboveAntitone(s[1..], v, w);
    }
  }

  /** The competition place of a row with `w` wins among `s`. */
  function Place(s: seq<RankingData>, w: int): int {
    1 + CountAbove(s, w)
  }

  /**
   * Competition places in a list ordered by wins: the first row is first, row
   * `i` is placed between 1 and i + 1, exactly i + 1 when it has fewer wins than
   * the row before it, and rows with equal wins share their place.
   */
  lemma CompetitionPlaces(s: seq<RankingData>)
    requires SortedBy(s, WinsBefore)
    ensures |s| > 0 ==> Place(s, s[0].wins) == 1
    ensures forall i :: 0 <= i < |s| ==> 1 <= Place(s, s[i].wins) <= i + 1
    ensures forall i :: 0 < i < |s| && s[i - 1].wins != s[i].wins ==> Place(s, s[i].wins) == i + 1
    ensures forall i, j :: 0 <= i < j < |s| && s[i].wins == s[j].wins ==> Place(s, s[i].wins) == Place(s, s[j].wins)
  {
    if |s| > 0 {
      PlaceOfRow(s, 0);
    }
    forall i | 0 <= i < |s| ensures Place(s, s[i].wins) <= i + 1 {
      CountAboveAtMost(s, s[i].wins, i);
    }
    forall i | 0 < i < |s| && s[i - 1].wins != s[i].wins ensures Place(s, s[i].wins) == i + 1 {
      PlaceOfRow(s, i);
    }
  }

  /**
   * `getRankedData`: the rows sorted by wins (stably, so equal rows keep their
   * order), each with its competition place.
   */
  method GetRankedData(rankings: seq<RankingData>) returns (ranked: seq<RankedEntry>)
    ensures |ranked| == |rankings|
    ensures forall i :: 0 <= i < |ranked| ==> ranked[i].data == SortBy(rankings, WinsBefore)[i]
    ensures forall i, j :: 0 <= i < j < |ranked| ==> ranked[i].data.wins >= ranked[j].data.wins
    ensures forall i :: 0 <= i < |ranked| ==>
      ranked[i].rank == Place(SortBy(rankings, WinsBefore), ranked[i].data.wins)
    ensures forall i, j :: 0 <= i < j < |ranked| ==> ranked[i].rank <= ranked[j].rank
  {
    if |rankings| == 0 {
      return [];
    }
    var sorted := SortBy(rankings, WinsBefore);
    WinsBeforeTotalPreorder();
    SortBySorted(rankings, WinsBefore);
    ranked := RankSorted(sorted);
    forall i, j | 0 <= i < j < |ranked| ensures ranked[i].rank <= ranked[j].rank {
      CountAboveAntitone(sorted, sorted[j].wins, sorted[i].wins);
    }
  }

  /** The loop of `getRankedData` over rows already ordered by wins. */
  method RankSorted(sorted: seq<RankingData>) returns (ranked: seq<RankedEntry>)
    requires SortedBy(sorted, WinsBefore)
    ensures |ranked| == |sorted|
    ensures forall i :: 0 <= i < |ranked| ==> ranked[i].data == sorted[i]
    ensures forall i :: 0 <= i < |ranked| ==> ranked[i].rank == Place(sorted, sorted[i].wins)
  {
    ranked := [];
    var i := 0;
    while i < |sorted|
      invariant 0 <= i <= |sorted| && |ranked| == i
      invariant forall k :: 0 <= k < i ==> ranked[k].data == sorted[k]
      invariant forall k :: 0 <= k < i ==> ranked[k].rank == Place(sorted, sorted[k].wins)
    {
      var ranking := sorted[i];
      var rank := i + 1;
      if i > 0 && sorted[i - 1].wins == ranking.wins {
        var prevRank := if ranked[i - 1].rank != 0 then ranked[i - 1].rank else i;
        rank := prevRank;
      } else {
        PlaceOfRow(sorted, i);
      }
      ranked := ranked + [RankedEntry(ranking, rank)];
      i := i + 1;
    }
  }
}
