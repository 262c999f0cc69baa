/** The `upvotes` and `downvotes` arrays that questions and answers both carry, and the facts about
    them that the two `addVote` algorithms share. */
module VoteLists {
  import opened Common

  /** One array slot: a voter's id, or a null left in the array. */
  type Entry = Option<UserId>

  /** The pair of arrays of one question or answer. */
  datatype Votes = Votes(up: seq<Entry>, down: seq<Entry>)
  {
    /** The `voteCount` virtual: it may be negative. */
    function VoteCount(): int
    {
      |up| - |down|
    }

    /** `hasVoted(userId)`: the id is in either array. */
    predicate HasVoted(u: Entry)
    {
      u in up || u in down
    }
  }

  /** How many times x occurs in s. */
  function Count(s: seq<Entry>, x: Entry): nat
  {
    if s == [] then 0 else Count(s[..|s| - 1], x) + (if s[|s| - 1] == x then 1 else 0)
  }

  /** The ledger invariant: no entry twice in one array and no entry in both arrays. */
  ghost predicate Consistent(v: Votes)
  {
    forall x :: Count(v.up, x) + Count(v.down, x) <= 1
  }

  /** Neither array holds a null. */
  predicate NoNulls(v: Votes)
  {
    None !in v.up && None !in v.down
  }

  predicate NoDup(s: seq<Entry>)
  {
    forall i, j :: 0 <= i < j < |s| ==> s[i] != s[j]
  }

  function Elems(s: seq<Entry>): set<Entry>
  {
    set x | x in s
  }

  lemma {:induction false} CountAppend(a: seq<Entry>, b: seq<Entry>, x: Entry)
    ensures Count(a + b, x) == Count(a, x) + Count(b, x)
    decreases |b|
  {
    if b != [] {
      assert (a + b)[..|a + b| - 1] == a + b[..|b| - 1];
      CountAppend(a, b[..|b| - 1], x);
    } else {
      assert a + b == a;
    }
  }

  /** An entry occurs in s exactly when its count is positive. */
  lemma {:induction false} CountIn(s: seq<Entry>, x: Entry)
    ensures x in s <==> Count(s, x) > 0
  {
    if s != [] {
      CountIn(s[..|s| - 1], x);
      assert s == s[..|s| - 1] + [s[|s| - 1]];
    }
  }

  lemma CountSingle(x: Entry, y: Entry)
    ensures Count([y], x) == if x == y then 1 else 0
  {
    assert [y][..0] == [];
  }

  /** A list counts every entry at most once exactly when it has no repeated entry. */
  lemma {:induction false} NoDupByCount(s: seq<Entry>)
    ensures NoDup(s) <==> forall x :: Count(s, x) <= 1
  {
    if s != [] {
      var p, y := s[..|s| - 1], s[|s| - 1];
      assert s == p + [y];
      NoDupByCount(p);
      forall x ensures Count(s, x) == Count(p, x) + (if x == y then 1 else 0) {
        CountAppend(p, [y], x);
        CountSingle(x, y);
      }
      CountIn(p, y);
      if NoDup(s) {
        assert NoDup(p);
        assert y !in p;
        forall x ensures Count(s, x) <= 1 {
          assert Count(p, x) <= 1;
        }
      } else {
        var i, j :| 0 <= i < j < |s| && s[i] == s[j];
        if j == |s| - 1 {
          assert s[i] == p[i];
          assert y in p;
          assert Count(p, y) > 0;
          assert Count(s, y) == Count(p, y) + 1;
          assert !(Count(s, y) <= 1);
        } else {
          assert p[i] == p[j];
          assert !NoDup(p);
          var x :| Count(p, x) > 1;
          assert Count(s, x) > 1;
        }
      }
    }
  }

  /** The count-based invariant says what the ledger promises in plain words: neither array
      repeats an entry, and no entry is in both. */
  lemma ConsistentMeans(v: Votes)
    ensures Consistent(v) <==> NoDup(v.up) && NoDup(v.down) && forall x :: x in v.up ==> x !in v.down
  {
    NoDupByCount(v.up);
    NoDupByCount(v.down);
    forall x ensures (x in v.up <==> Count(v.up, x) > 0) && (x in v.down <==> Count(v.down, x) > 0) {
      CountIn(v.up, x);
      CountIn(v.down, x);
    }
    if NoDup(v.up) && NoDup(v.down) && forall x :: x in v.up ==> x !in v.down {
      forall x ensures Count(v.up, x) + Count(v.down, x) <= 1 {
        assert Count(v.up, x) <= 1 && Count(v.down, x) <= 1;
      }
    }
  }

  /** A list without repeats has as many distinct entries as slots. */
  lemma {:induction false} DistinctCount(s: seq<Entry>)
    requires forall x :: Count(s, x) <= 1
    ensures |Elems(s)| == |s|
  {
    if s != [] {
      var p, y := s[..|s| - 1], s[|s| - 1];
      assert s == p + [y];
      forall x ensures Count(p, x) <= 1 {
        CountAppend(p, [y], x);
      }
      DistinctCount(p);
      CountAppend(p, [y], y);
      CountSingle(y, y);
      CountIn(p, y);
      assert Elems(s) == Elems(p) + {y};
    }
  }

  /** Under the invariant, `voteCount` is the number of distinct upvoters minus the number of
      distinct downvoters. */
  lemma VoteCountIsNetVoters(v: Votes)
    requires Consistent(v)
    ensures v.VoteCount() == |Elems(v.up)| - |Elems(v.down)|
  {
    DistinctCount(v.up);
    DistinctCount(v.down);
  }
}
