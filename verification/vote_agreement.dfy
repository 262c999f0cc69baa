/** The two `addVote` algorithms, Question's filter-then-push and Answer's guarded push-then-splice,
    compared on the same pair of arrays. */
module VoteAgreement {
  import opened Common
  import opened VoteLists
  import opened QuestionModel
  import opened AnswerModel

  /** Under the ledger invariant, an upvote or downvote by a real id leaves every id counted the
      same number of times in each array by both algorithms; so membership, `hasVoted` and the
      invariant itself agree. Only where they put the ids and the nulls can differ. */
  lemma VotesAgreeOnIds(v: Votes, u: Entry, voteType: string)
    requires Consistent(v) && u.Some? && (voteType == "upvote" || voteType == "downvote")
    ensures var q, a := QuestionVote(v, u, voteType), AnswerVote(v, u, voteType);
      forall x: Entry :: x.Some? ==>
        && Count(q.up, x) == Count(a.up, x) && Count(q.down, x) == Count(a.down, x)
        && (x in q.up <==> x in a.up) && (x in q.down <==> x in a.down)
        && (q.HasVoted(x) <==> a.HasVoted(x))
  {
    var q, a := QuestionVote(v, u, voteType), AnswerVote(v, u, voteType);
    QuestionVoteOutcome(v, u, voteType);
    AnswerVoteOutcome(v, u, voteType);
    AnswerVoteCasts(v, u, voteType);
    forall x: Entry | x.Some?
      ensures Count(q.up, x) == Count(a.up, x) && Count(q.down, x) == Count(a.down, x)
    {
      if x != u {
        assert Kept(x, u.value);
        CountAppend(v.up, [u], x);
        CountAppend(v.down, [u], x);
        CountSingle(x, u);
      }
    }
    forall x: Entry | x.Some?
      ensures (x in q.up <==> x in a.up) && (x in q.down <==> x in a.down)
    {
      CountIn(q.up, x);
      CountIn(a.up, x);
      CountIn(q.down, x);
      CountIn(a.down, x);
    }
  }

  /** When neither array holds a null as well, the two algorithms give the same `voteCount`. */
  lemma VoteCountsAgree(v: Votes, u: Entry, voteType: string)
    requires Consistent(v) && NoNulls(v) && u.Some? && (voteType == "upvote" || voteType == "downvote")
    ensures QuestionVote(v, u, voteType).VoteCount() == AnswerVote(v, u, voteType).VoteCount()
  {
    QuestionVoteCountDelta(v, u, voteType);
    AnswerVoteCountDelta(v, u, voteType);
  }

  /** For any other vote type they part ways: Question's method retracts the vote of a voter who
      has voted, while Answer's keeps the arrays exactly as they were. */
  lemma OtherVoteTypesDisagree(v: Votes, u: Entry, voteType: string)
    requires u.Some? && v.HasVoted(u) && voteType != "upvote" && voteType != "downvote"
    ensures AnswerVote(v, u, voteType) == v && AnswerVote(v, u, voteType).HasVoted(u)
    ensures !QuestionVote(v, u, voteType).HasVoted(u)
    ensures QuestionVote(v, u, voteType) != AnswerVote(v, u, voteType)
  {
    QuestionVoteOutcome(v, u, voteType);
  }
}
