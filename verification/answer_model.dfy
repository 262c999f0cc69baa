/** The Answer document (backend/models/Answer.js): its fields, and its own `addVote`, which pushes the
    voter only if absent from the target array and then splices the voter's first occurrence out of
    the other array. */
module AnswerModel {
  import opened Common
  import opened VoteLists

  /** An answer as the collection stores it. Timestamps are not modelled. */
  datatype Answer = Answer(
    content: string,
    author: UserId,
    question: QuestionId,
    upvotes: seq<Entry>,
    downvotes: seq<Entry>,
    isAccepted: bool,
    comments: seq<Comment>)
  {
    function Ballot(): Votes
    {
      Votes(upvotes, downvotes)
    }
  }

  /** A new answer (Answer.js:3-43): no votes and no comments, and not accepted. */
  function NewAnswer(content: string, author: UserId, question: QuestionId): (a: Answer)
    ensures !a.isAccepted && a.Ballot() == Votes([], [])
    ensures a.Ballot().VoteCount() == 0 && !a.Ballot().HasVoted(Some(author))
    ensures a.content == content && a.author == author && a.question == question && a.comments == []
  {
    Answer(content, author, question, [], [], false, [])
  }

  // ----- the specification of addVote -----

  /** `s.splice(s.indexOf(x), 1)` when x occurs: the first occurrence of x is removed. */
  function RemoveFirst(s: seq<Entry>, x: Entry): seq<Entry>
  {
    if s == [] then []
    else if s[0] == x then s[1..]
    else [s[0]] + RemoveFirst(s[1..], x)
  }

  /** The two arrays after `addVote(u, voteType)`: an upvote by a voter already in `upvotes` and a
      downvote by one already in `downvotes` change nothing; otherwise u is appended to the target
      array and its first occurrence in the other array, if any, is removed. Any other vote type
      changes nothing. */
  function AnswerVote(v: Votes, u: Entry, voteType: string): Votes
  {
    if voteType == "upvote" then
      if u in v.up then v else Votes(v.up + [u], RemoveFirst(v.down, u))
    else if voteType == "downvote" then
      if u in v.down then v else Votes(RemoveFirst(v.up, u), v.down + [u])
    else v
  }

  // ----- the splice -----

  /** Removing the first occurrence of x takes one x away, if there is one, and leaves every other
      entry's count alone. */
  lemma {:induction false} RemoveFirstCount(s: seq<Entry>, x: Entry, y: Entry)
    ensures Count(RemoveFirst(s, x), y) == Count(s, y) - (if y == x && x in s then 1 else 0)
  {
    if s != [] {
      assert s == [s[0]] + s[1..];
      CountAppend([s[0]], s[1..], y);
      CountSingle(y, s[0]);
      CountIn(s[1..], x);
      CountIn(s, x);
      if s[0] != x {
        RemoveFirstCount(s[1..], x, y);
        CountAppend([s[0]], RemoveFirst(s[1..], x), y);
      }
    }
  }

  /** Splicing out the slot indexOf found is RemoveFirst. */
  lemma {:induction false} SpliceIsRemoveFirst(s: seq<Entry>, x: Entry, i: nat)
    requires i < |s| && s[i] == x && x !in s[..i]
    ensures s[..i] + s[i + 1..] == RemoveFirst(s, x)
  {
    if i > 0 {
      assert s[0] != x by { assert s[0] == s[..i][0]; }
      assert s[1..][..i - 1] == s[1..i];
      SpliceIsRemoveFirst(s[1..], x, i - 1);
      assert s[..i] == [s[0]] + s[1..][..i - 1];
    }
  }

  lemma {:induction false} RemoveFirstAbsent(s: seq<Entry>, x: Entry)
    requires x !in s
    ensures RemoveFirst(s, x) == s
  {
    if s != [] {
      RemoveFirstAbsent(s[1..], x);
    }
  }

  /** `indexOf`: the first slot holding x, or -1. */
  method IndexOf(s: seq<Entry>, x: Entry) returns (i: int)
    ensures -1 <= i < |s|
    ensures i == -1 <==> x !in s
    ensures i >= 0 ==> s[i] == x && x !in s[..i]
  {
    i := 0;
    while i < |s|
      invariant 0 <= i <= |s|
      invariant x !in s[..i]
    {
      if s[i] == x {
        return;
      }
      assert s[..i + 1] == s[..i] + [s[i]];
      i := i + 1;
    }
    assert s[..i] == s;
    i := -1;
  }

  // ----- properties of addVote -----

  /** The effect of a vote, entry by entry: when the target array lacks u, u is appended at its end
      and exactly one occurrence of u, if any, leaves the other array; no other voter's count moves. */
  lemma AnswerVoteOutcome(v: Votes, u: Entry, voteType: string)
    ensures var r := AnswerVote(v, u, voteType);
      && (voteType == "upvote" && u !in v.up ==>
            r.up == v.up + [u] &&
            forall y :: Count(r.down, y) == Count(v.down, y) - (if y == u && u in v.down then 1 else 0))
      && (voteType == "downvote" && u !in v.down ==>
            r.down == v.down + [u] &&
            forall y :: Count(r.up, y) == Count(v.up, y) - (if y == u && u in v.up then 1 else 0))
      && ((voteType == "upvote" && u in v.up) || (voteType == "downvote" && u in v.down) ==> r == v)
      && (voteType != "upvote" && voteType != "downvote" ==> r == v)
  {
    forall y ensures Count(RemoveFirst(v.down, u), y) == Count(v.down, y) - (if y == u && u in v.down then 1 else 0)
      && Count(RemoveFirst(v.up, u), y) == Count(v.up, y) - (if y == u && u in v.up then 1 else 0)
    {
      RemoveFirstCount(v.down, u, y);
      RemoveFirstCount(v.up, u, y);
    }
  }

  /** With the invariant in force, an upvote or downvote leaves u exactly once in the target array
      and nowhere in the other one. */
  lemma AnswerVoteCasts(v: Votes, u: Entry, voteType: string)
    requires Consistent(v) && (voteType == "upvote" || voteType == "downvote")
    ensures var r := AnswerVote(v, u, voteType);
      && (voteType == "upvote" ==> Count(r.up, u) == 1 && Count(r.down, u) == 0)
      && (voteType == "downvote" ==> Count(r.up, u) == 0 && Count(r.down, u) == 1)
  {
    var r := AnswerVote(v, u, voteType);
    AnswerVoteOutcome(v, u, voteType);
    CountIn(v.up, u);
    CountIn(v.down, u);
    CountAppend(v.up, [u], u);
    CountAppend(v.down, [u], u);
    CountSingle(u, u);
  }

  /** A vote keeps the ledger invariant, and a vote by a real id adds no null. */
  lemma AnswerVoteKeepsConsistent(v: Votes, u: Entry, voteType: string)
    requires Consistent(v)
    ensures Consistent(AnswerVote(v, u, voteType))
    ensures NoNulls(v) && u.Some? ==> NoNulls(AnswerVote(v, u, voteType))
  {
    if voteType == "upvote" && u !in v.up {
      PushRemoveKeepsConsistent(v.up, v.down, u);
    } else if voteType == "downvote" && u !in v.down {
      PushRemoveKeepsConsistent(v.down, v.up, u);
    }
  }

  /** One side of a vote that moves u: pushing u onto an array without it and splicing u's first
      occurrence out of the other keeps every id counted at most once across the two, and adds no null. */
  lemma PushRemoveKeepsConsistent(a: seq<Entry>, b: seq<Entry>, u: Entry)
    requires forall x :: Count(a, x) + Count(b, x) <= 1
    requires u !in a
    ensures forall x :: Count(a + [u], x) + Count(RemoveFirst(b, u), x) <= 1
    ensures None !in a && None !in b && u.Some? ==> None !in a + [u] && None !in RemoveFirst(b, u)
  {
    forall x ensures Count(a + [u], x) + Count(RemoveFirst(b, u), x) <= 1 {
      CountAppend(a, [u], x);
      CountSingle(x, u);
      RemoveFirstCount(b, u, x);
      if x == u {
        CountIn(a, u);
        CountIn(b, u);
      }
    }
    CountIn(b, None);
    CountIn(RemoveFirst(b, u), None);
    RemoveFirstCount(b, u, None);
  }

  /** How `voteCount` moves under the invariant: an upvote adds 1 for a new voter, 2 for a voter who
      had downvoted, nothing for one who had upvoted; a downvote is the mirror image. */
  lemma AnswerVoteCountDelta(v: Votes, u: Entry, voteType: string)
    requires Consistent(v)
    ensures var r := AnswerVote(v, u, voteType);
      && (voteType == "upvote" ==>
            r.VoteCount() == v.VoteCount() + (if u in v.up then 0 else if u in v.down then 2 else 1))
      && (voteType == "downvote" ==>
            r.VoteCount() == v.VoteCount() - (if u in v.down then 0 else if u in v.up then 2 else 1))
      && (voteType != "upvote" && voteType != "downvote" ==> r.VoteCount() == v.VoteCount())
  {
    RemoveFirstLength(v.up, u);
    RemoveFirstLength(v.down, u);
  }

  lemma {:induction false} RemoveFirstLength(s: seq<Entry>, x: Entry)
    ensures |RemoveFirst(s, x)| == if x in s then |s| - 1 else |s|
  {
    if s != [] {
      RemoveFirstLength(s[1..], x);
    }
  }

  /** An upvote followed by a downvote from the same voter leaves that voter only in `downvotes`,
      and the second vote takes 2 off the count. */
  lemma AnswerUpThenDown(v: Votes, u: Entry)
    requires Consistent(v)
    ensures var r1 := AnswerVote(v, u, "upvote");
      var r2 := AnswerVote(r1, u, "downvote");
      && u !in r2.up && u in r2.down
      && r2.VoteCount() == r1.VoteCount() - 2
  {
    var r1 := AnswerVote(v, u, "upvote");
    var r2 := AnswerVote(r1, u, "downvote");
    AnswerVoteKeepsConsistent(v, u, "upvote");
    AnswerVoteCasts(v, u, "upvote");
    AnswerVoteCasts(r1, u, "downvote");
    AnswerVoteCountDelta(r1, u, "downvote");
    CountIn(r1.up, u);
    CountIn(r1.down, u);
    CountIn(r2.up, u);
    CountIn(r2.down, u);
  }

  // ----- the document -----

  /** A loaded Answer document, whose fields the route handlers and `addVote` change in place. */
  class AnswerDoc {
    var content: string
    var author: UserId
    var question: QuestionId
    var upvotes: seq<Entry>
    var downvotes: seq<Entry>
    var isAccepted: bool
    var comments: seq<Comment>

    constructor Load(a: Answer)
      ensures Record() == a
    {
      content, author, question := a.content, a.author, a.question;
      upvotes, downvotes := a.upvotes, a.downvotes;
      isAccepted, comments := a.isAccepted, a.comments;
    }

    /** `new Answer({ content, question, author })`, with the schema's defaults. */
    constructor New(content0: string, author0: UserId, question0: QuestionId)
      ensures Record() == NewAnswer(content0, author0, question0)
    {
      content, author, question := content0, author0, question0;
      upvotes, downvotes := [], [];
      isAccepted, comments := false, [];
    }

    /** What `save()` writes back. */
    function Record(): Answer
      reads this
    {
      Answer(content, author, question, upvotes, downvotes, isAccepted, comments)
    }

    function Ballot(): Votes
      reads this
    {
      Votes(upvotes, downvotes)
    }

    /** `addVote(userId, voteType)` (Answer.js:72-90): a guarded push onto the target array, then a
        splice of the first occurrence in the other array. No other field changes. */
    method AddVote(u: Entry, voteType: string)
      modifies this
      ensures Ballot() == AnswerVote(old(Ballot()), u, voteType)
      ensures Record() == old(Record()).(upvotes := upvotes, downvotes := downvotes)
    {
      if voteType == "upvote" {
        if u !in upvotes {
          upvotes := upvotes + [u];
          var i := IndexOf(downvotes, u);
          if i > -1 {
            SpliceIsRemoveFirst(downvotes, u, i);
            downvotes := downvotes[..i] + downvotes[i + 1..];
          } else {
            RemoveFirstAbsent(downvotes, u);
          }
        }
      } else if voteType == "downvote" {
        if u !in downvotes {
          downvotes := downvotes + [u];
          var i := IndexOf(upvotes, u);
          if i > -1 {
            SpliceIsRemoveFirst(upvotes, u, i);
            upvotes := upvotes[..i] + upvotes[i + 1..];
          } else {
            RemoveFirstAbsent(upvotes, u);
          }
        }
      }
    }
  }
}
