/**
  Per-position majority vote over buffered plate reads (recognition/views.py,
  the `zip(*plate_list)` / `Counter(chars).most_common(1)` comprehension).
 */
module Voting {
  import opened LicensePlate

  /** How often `c` occurs in `s`. */
  function Count(s: seq<char>, c: char): nat {
    multiset(s)[c]
  }

  /**
    `c` is what `Counter(s).most_common(1)[0][0]` picks: no character is more
    frequent, and every character seen before the first `c` is strictly less
    frequent (a Counter keeps first-seen order and ties go to the earlier key).
   */
  ghost predicate EarliestMostFrequent(s: seq<char>, c: char) {
    && (forall d :: Count(s, d) <= Count(s, c))
    && exists k :: 0 <= k < |s| && s[k] == c && forall j :: 0 <= j < k ==> Count(s, s[j]) < Count(s, c)
  }

  /** Scan positions `i..` keeping the earliest position of strictly highest count. */
  function ArgMaxFrom(s: seq<char>, i: nat, best: nat): (k: nat)
    requires best < i <= |s|
    requires forall j :: 0 <= j < i ==> Count(s, s[j]) <= Count(s, s[best])
    requires forall j :: 0 <= j < best ==> Count(s, s[j]) < Count(s, s[best])
    ensures k < |s|
    ensures forall j :: 0 <= j < |s| ==> Count(s, s[j]) <= Count(s, s[k])
    ensures forall j :: 0 <= j < k ==> Count(s, s[j]) < Count(s, s[k])
    decreases |s| - i
  {
    if i == |s| then best
    else if Count(s, s[i]) > Count(s, s[best]) then ArgMaxFrom(s, i + 1, i)
    else ArgMaxFrom(s, i + 1, best)
  }

  /** `Counter(s).most_common(1)[0][0]`. */
  function MostCommon(s: seq<char>): (r: char)
    requires |s| > 0
    ensures r in s
    ensures EarliestMostFrequent(s, r)
  {
    var k := ArgMaxFrom(s, 1, 0);
    forall d ensures Count(s, d) <= Count(s, s[k]) {
      if d in s {
        var j :| 0 <= j < |s| && s[j] == d;
      }
    }
    s[k]
  }

  /** The vote's choice is determined: at most one character is the earliest most frequent. */
  lemma EarliestMostFrequentUnique(s: seq<char>, a: char, b: char)
    requires EarliestMostFrequent(s, a) && EarliestMostFrequent(s, b)
    ensures a == b
  {
  }

  /** Two different characters occur together no more often than the sequence is long. */
  lemma {:induction false} CountPair(s: seq<char>, a: char, b: char)
    requires a != b
    ensures Count(s, a) + Count(s, b) <= |s|
  {
    if s != [] {
      CountPair(s[1..], a, b);
      assert s == [s[0]] + s[1..];
      assert multiset(s) == multiset([s[0]]) + multiset(s[1..]);
    }
  }

  /** A character held by more than half of the reads wins the vote. */
  lemma MajorityWins(s: seq<char>, c: char)
    requires 2 * Count(s, c) > |s|
    ensures MostCommon(s) == c
  {
    var r := MostCommon(s);
    if r != c {
      CountPair(s, r, c);
    }
  }

  /** The length of the shortest read: `zip` stops there. */
  function MinLen(plates: seq<string>): (n: nat)
    ensures forall j :: 0 <= j < |plates| ==> n <= |plates[j]|
    ensures |plates| > 0 ==> exists j :: 0 <= j < |plates| && n == |plates[j]|
    ensures |plates| == 0 ==> n == 0
  {
    if |plates| == 0 then 0
    else if |plates| == 1 then |plates[0]|
    else
      var m := MinLen(plates[1..]);
      assert forall j :: 1 <= j < |plates| ==> plates[j] == plates[1..][j - 1];
      if |plates[0]| < m then |plates[0]| else m
  }

  /** The characters at position `i` of every read, in buffer order. */
  function Column(plates: seq<string>, i: nat): (col: seq<char>)
    requires forall j :: 0 <= j < |plates| ==> i < |plates[j]|
  {
    seq(|plates|, j requires 0 <= j < |plates| => plates[j][i])
  }

  /** `''.join(Counter(chars).most_common(1)[0][0] for chars in zip(*plates))`. */
  function Vote(plates: seq<string>): (r: string)
    ensures |r| == MinLen(plates)
    ensures forall i :: 0 <= i < |r| ==> EarliestMostFrequent(Column(plates, i), r[i])
  {
    seq(MinLen(plates), i requires 0 <= i < MinLen(plates) => MostCommon(Column(plates, i)))
  }

  /** Reads that all agree vote for themselves. */
  lemma VoteUnanimous(plates: seq<string>, p: string)
    requires |plates| > 0
    requires forall j :: 0 <= j < |plates| ==> plates[j] == p
    ensures Vote(plates) == p
  {
  }

  /** A vote over grammar-compliant reads is itself grammar-compliant. */
  lemma VoteComplies(plates: seq<string>)
    requires |plates| > 0
    requires forall j :: 0 <= j < |plates| ==> CompliesFormat(plates[j])
    ensures CompliesFormat(Vote(plates))
  {
    var r := Vote(plates);
    forall j | 0 <= j < |plates| ensures 7 <= |plates[j]| <= 8 {
      CompliesFormatByPosition(plates[j]);
    }
    forall i | 0 <= i < |r| ensures FitsPosition(i, r[i]) {
      var col := Column(plates, i);
      assert r[i] == MostCommon(col);
      var j :| 0 <= j < |col| && col[j] == r[i];
      CompliesFormatByPosition(plates[j]);
    }
    CompliesFormatByPosition(r);
  }

  /** Every read equal to `p` contributes `p[i]` to column `i`. */
  lemma {:induction false} ColumnCountsAgreeingReads(plates: seq<string>, p: string, i: nat)
    requires i < |p|
    requires forall j :: 0 <= j < |plates| ==> i < |plates[j]|
    ensures multiset(plates)[p] <= Count(Column(plates, i), p[i])
  {
    if plates != [] {
      var rest := plates[1..];
      ColumnCountsAgreeingReads(rest, p, i);
      assert plates == [plates[0]] + rest;
      assert multiset(plates) == multiset([plates[0]]) + multiset(rest);
      assert Column(plates, i) == [plates[0][i]] + Column(rest, i);
      assert multiset(Column(plates, i)) == multiset([plates[0][i]]) + multiset(Column(rest, i));
    }
  }

  /** When more than half of the buffered reads are the same plate, the vote returns that plate. */
  lemma VoteMajority(plates: seq<string>, p: string)
    requires forall j :: 0 <= j < |plates| ==> |plates[j]| == |p|
    requires 2 * multiset(plates)[p] > |plates|
    ensures Vote(plates) == p
  {
    var r := Vote(plates);
    assert p in multiset(plates);
    assert |r| == |p|;
    forall i | 0 <= i < |p| ensures r[i] == p[i] {
      ColumnCountsAgreeingReads(plates, p, i);
      MajorityWins(Column(plates, i), p[i]);
    }
  }

  /** Five reads of "RAB123C" and one of "RAB129C" resolve to "RAB123C". */
  lemma VoteExample()
    ensures Vote(["RAB123C", "RAB123C", "RAB123C", "RAB123C", "RAB123C", "RAB129C"]) == "RAB123C"
  {
    var p, q := "RAB123C", "RAB129C";
    var plates := [p, p, p, p, p, q];
    assert multiset(plates) == multiset([p, p, p, p, p]) + multiset([q]);
    assert multiset([p, p, p, p, p])[p] == 5;
    VoteMajority(plates, p);
  }
}
