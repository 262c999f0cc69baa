/** The Question document (backend/models/Question.js): its fields, and `addVote`, which first
    filters the voter (and any null) out of both arrays and then appends the voter to one of them. */
module QuestionModel {
  import opened Common
  import opened Text
  import opened VoteLists

  /** A question as the collection stores it. Timestamps are not modelled. */
  datatype Question = Question(
    title: string,
    content: string,
    author: UserId,
    tags: seq<string>,
    upvotes: seq<Entry>,
    downvotes: seq<Entry>,
    answers: seq<AnswerId>,
    comments: seq<Comment>,
    views: int)
  {
    function Ballot(): Votes
    {
      Votes(upvotes, downvotes)
    }
  }

  /** `new Question({ title, content, tags, author })` (Question.js:3-71): the schema trims the title
      and every tag; the question starts with no votes, answers or comments and no views. */
  function NewQuestion(title: string, content: string, tags: seq<string>, author: UserId): (q: Question)
    ensures q.title == Trim(title) && q.content == content && q.author == author && q.tags == TrimEach(tags)
    ensures q.Ballot() == Votes([], []) && q.answers == [] && q.comments == [] && q.views == 0
  {
    Question(Trim(title), content, author, TrimEach(tags), [], [], [], [], 0)
  }

  // ----- the specification of addVote -----

  /** The filter's test `id && id.toString() !== userId.toString()`: the slot holds an id, and not u's. */
  predicate Kept(x: Entry, u: UserId)
  {
    x.Some? && x.value != u
  }

  /** `array.filter(...)` with that test. */
  function WithoutVoter(s: seq<Entry>, u: UserId): seq<Entry>
  {
    if s == [] then []
    else WithoutVoter(s[..|s| - 1], u) + (if Kept(s[|s| - 1], u) then [s[|s| - 1]] else [])
  }

  /** The subsequence of s made of the entries in S; used to state that relative order is kept. */
  function Restrict(s: seq<Entry>, S: set<Entry>): seq<Entry>
  {
    if s == [] then []
    else Restrict(s[..|s| - 1], S) + (if s[|s| - 1] in S then [s[|s| - 1]] else [])
  }

  /** The two arrays after `addVote(u, voteType)`: nothing happens for a falsy u; otherwise u is
      filtered out of both and appended to the array the vote type names, if it names one. */
  function QuestionVote(v: Votes, u: Entry, voteType: string): Votes
  {
    if u.None? then v
    else
      var up, down := WithoutVoter(v.up, u.value), WithoutVoter(v.down, u.value);
      if voteType == "upvote" then Votes(up + [u], down)
      else if voteType == "downvote" then Votes(up, down + [u])
      else Votes(up, down)
  }

  // ----- the filter -----

  /** The filter keeps every other voter's entries, as many times as they occur, and drops u and nulls. */
  lemma {:induction false} WithoutVoterCount(s: seq<Entry>, u: UserId, x: Entry)
    ensures Count(WithoutVoter(s, u), x) == if Kept(x, u) then Count(s, x) else 0
  {
    if s != [] {
      var p, y := s[..|s| - 1], s[|s| - 1];
      WithoutVoterCount(p, u, x);
      var tail := if Kept(y, u) then [y] else [];
      CountAppend(WithoutVoter(p, u), tail, x);
      if Kept(y, u) {
        CountSingle(x, y);
      }
    }
  }

  /** The filter keeps the relative order of the voters it keeps: restricted to any set of other
      voters, the array is the same before and after. */
  lemma {:induction false} WithoutVoterKeepsOrder(s: seq<Entry>, u: UserId, S: set<Entry>)
    requires Some(u) !in S && None !in S
    ensures Restrict(WithoutVoter(s, u), S) == Restrict(s, S)
  {
    if s != [] {
      var p, y := s[..|s| - 1], s[|s| - 1];
      WithoutVoterKeepsOrder(p, u, S);
      var w := WithoutVoter(p, u);
      if Kept(y, u) {
        assert (w + [y])[..|w + [y]| - 1] == w;
      } else {
        assert WithoutVoter(s, u) == w;
      }
    }
  }

  lemma {:induction false} RestrictAppend(a: seq<Entry>, b: seq<Entry>, S: set<Entry>)
    ensures Restrict(a + b, S) == Restrict(a, S) + Restrict(b, S)
    decreases |b|
  {
    if b == [] {
      assert a + b == a;
    } else {
      assert (a + b)[..|a + b| - 1] == a + b[..|b| - 1];
      RestrictAppend(a, b[..|b| - 1], S);
    }
  }

  lemma {:induction false} WithoutVoterAppend(a: seq<Entry>, b: seq<Entry>, u: UserId)
    ensures WithoutVoter(a + b, u) == WithoutVoter(a, u) + WithoutVoter(b, u)
    decreases |b|
  {
    if b == [] {
      assert a + b == a;
    } else {
      assert (a + b)[..|a + b| - 1] == a + b[..|b| - 1];
      WithoutVoterAppend(a, b[..|b| - 1], u);
    }
  }

  /** Filtering an array that holds neither u nor a null changes nothing. */
  lemma {:induction false} WithoutVoterOfClean(s: seq<Entry>, u: UserId)
    requires forall i :: 0 <= i < |s| ==> Kept(s[i], u)
    ensures WithoutVoter(s, u) == s
  {
    if s != [] {
      WithoutVoterOfClean(s[..|s| - 1], u);
    }
  }

  /** Everything the filter returns passes the filter's test. */
  lemma {:induction false} WithoutVoterClean(s: seq<Entry>, u: UserId)
    ensures forall i :: 0 <= i < |WithoutVoter(s, u)| ==> Kept(WithoutVoter(s, u)[i], u)
  {
    if s != [] {
      WithoutVoterClean(s[..|s| - 1], u);
    }
  }

  /** The filter drops exactly the occurrences of u and the nulls. */
  lemma {:induction false} WithoutVoterLength(s: seq<Entry>, u: UserId)
    ensures |WithoutVoter(s, u)| == |s| - Count(s, Some(u)) - Count(s, None)
  {
    if s != [] {
      WithoutVoterLength(s[..|s| - 1], u);
    }
  }

  // ----- properties of addVote -----

  /** After a vote by u: an upvote leaves u exactly once in `upvotes` and not in `downvotes`, a
      downvote the reverse, and any other vote type retracts u from both. Every other voter's
      entries stay as they were, and no null survives. A repeated vote only moves u to the end of
      its array. */
  lemma QuestionVoteOutcome(v: Votes, u: Entry, voteType: string)
    requires u.Some?
    ensures var r := QuestionVote(v, u, voteType);
      && (voteType == "upvote" ==> Count(r.up, u) == 1 && Count(r.down, u) == 0)
      && (voteType == "downvote" ==> Count(r.up, u) == 0 && Count(r.down, u) == 1)
      && (voteType != "upvote" && voteType != "downvote" ==> !r.HasVoted(u))
      && (forall x :: Kept(x, u.value) ==> Count(r.up, x) == Count(v.up, x) && Count(r.down, x) == Count(v.down, x))
      && NoNulls(r)
    ensures var r := QuestionVote(v, u, voteType);
      && (voteType == "upvote" ==> r.up != [] && r.up[|r.up| - 1] == u)
      && (voteType == "downvote" ==> r.down != [] && r.down[|r.down| - 1] == u)
  {
    QuestionVoteCounts(v, u, voteType);
  }

  /** The counting half of QuestionVoteOutcome, proved on its own to keep each proof small. */
  lemma QuestionVoteCounts(v: Votes, u: Entry, voteType: string)
    requires u.Some?
    ensures var r := QuestionVote(v, u, voteType);
      && (voteType == "upvote" ==> Count(r.up, u) == 1 && Count(r.down, u) == 0)
      && (voteType == "downvote" ==> Count(r.up, u) == 0 && Count(r.down, u) == 1)
      && (voteType != "upvote" && voteType != "downvote" ==> !r.HasVoted(u))
      && (forall x :: Kept(x, u.value) ==> Count(r.up, x) == Count(v.up, x) && Count(r.down, x) == Count(v.down, x))
      && NoNulls(r)
  {
    var r := QuestionVote(v, u, voteType);
    var up, down := WithoutVoter(v.up, u.value), WithoutVoter(v.down, u.value);
    WithoutVoterClean(v.up, u.value);
    WithoutVoterClean(v.down, u.value);
    forall x ensures Count(r.up, x) == Count(up, x) + (if voteType == "upvote" && x == u then 1 else 0)
      && Count(r.down, x) == Count(down, x) + (if voteType == "downvote" && x == u then 1 else 0)
      && Count(up, x) == (if Kept(x, u.value) then Count(v.up, x) else 0)
      && Count(down, x) == (if Kept(x, u.value) then Count(v.down, x) else 0)
    {
      WithoutVoterCount(v.up, u.value, x);
      WithoutVoterCount(v.down, u.value, x);
      CountAppend(up, [u], x);
      CountAppend(down, [u], x);
      CountSingle(x, u);
    }
    CountIn(r.up, u);
    CountIn(r.down, u);
    assert None !in up && None !in down;
  }

  /** The voters other than u keep their relative order in both arrays. */
  lemma QuestionVoteKeepsOrder(v: Votes, u: Entry, voteType: string, S: set<Entry>)
    requires u.Some? && u !in S && None !in S
    ensures Restrict(QuestionVote(v, u, voteType).up, S) == Restrict(v.up, S)
    ensures Restrict(QuestionVote(v, u, voteType).down, S) == Restrict(v.down, S)
  {
    var up, down := WithoutVoter(v.up, u.value), WithoutVoter(v.down, u.value);
    WithoutVoterKeepsOrder(v.up, u.value, S);
    WithoutVoterKeepsOrder(v.down, u.value, S);
    RestrictAppend(up, [u], S);
    RestrictAppend(down, [u], S);
    assert Restrict([u], S) == [];
  }

  /** Casting the same vote again leaves both arrays exactly as the first cast left them. */
  lemma QuestionVoteIdempotent(v: Votes, u: Entry, voteType: string)
    ensures QuestionVote(QuestionVote(v, u, voteType), u, voteType) == QuestionVote(v, u, voteType)
  {
    if u.Some? {
      Refilter(v.up, u.value);
      Refilter(v.down, u.value);
    }
  }

  /** Filtering u out again, with or without u appended since, gives the first filter's result. */
  lemma Refilter(s: seq<Entry>, u: UserId)
    ensures var w := WithoutVoter(s, u);
      WithoutVoter(w, u) == w && WithoutVoter(w + [Some(u)], u) == w
  {
    var w := WithoutVoter(s, u);
    WithoutVoterClean(s, u);
    WithoutVoterOfClean(w, u);
    WithoutVoterAppend(w, [Some(u)], u);
    assert WithoutVoter([Some(u)], u) == [];
  }

  /** A vote keeps the ledger invariant: no duplicates, and no voter in both arrays. */
  lemma QuestionVoteKeepsConsistent(v: Votes, u: Entry, voteType: string)
    requires Consistent(v)
    ensures Consistent(QuestionVote(v, u, voteType))
  {
    if u.Some? {
      var r := QuestionVote(v, u, voteType);
      QuestionVoteOutcome(v, u, voteType);
      forall x ensures Count(r.up, x) + Count(r.down, x) <= 1 {
        if x == u {
          CountIn(r.up, u);
          CountIn(r.down, u);
        } else if x.None? {
          CountIn(r.up, x);
          CountIn(r.down, x);
        }
      }
    }
  }

  /** How `voteCount` moves: +1 for an upvote and -1 for a downvote, after u's earlier votes are
      taken away. Under the invariant that is 0, 1 or 2 for an upvote, by u's earlier vote. */
  lemma QuestionVoteCountDelta(v: Votes, u: Entry, voteType: string)
    requires u.Some? && NoNulls(v)
    ensures var r := QuestionVote(v, u, voteType);
      var cast := if voteType == "upvote" then 1 else if voteType == "downvote" then -1 else 0;
      && r.VoteCount() == v.VoteCount() + cast - Count(v.up, u) + Count(v.down, u)
      && (Consistent(v) && voteType == "upvote" ==>
            r.VoteCount() == v.VoteCount() + (if u in v.up then 0 else if u in v.down then 2 else 1))
      && (Consistent(v) && voteType == "downvote" ==>
            r.VoteCount() == v.VoteCount() - (if u in v.down then 0 else if u in v.up then 2 else 1))
  {
    WithoutVoterLength(v.up, u.value);
    WithoutVoterLength(v.down, u.value);
    CountIn(v.up, None);
    CountIn(v.down, None);
    CountIn(v.up, u);
    CountIn(v.down, u);
  }

  // ----- the document -----

  /** A loaded Question document, whose fields the route handlers and `addVote` change in place. */
  class QuestionDoc {
    var title: string
    var content: string
    var author: UserId
    var tags: seq<string>
    var upvotes: seq<Entry>
    var downvotes: seq<Entry>
    var answers: seq<AnswerId>
    var comments: seq<Comment>
    var views: int

    constructor Load(q: Question)
      ensures Record() == q
    {
      title, content, author, tags := q.title, q.content, q.author, q.tags;
      upvotes, downvotes, answers := q.upvotes, q.downvotes, q.answers;
      comments, views := q.comments, q.views;
    }

    /** `new Question({ title, content, tags, author })`, with the schema's setters and defaults. */
    constructor New(title0: string, content0: string, tags0: seq<string>, author0: UserId)
      ensures Record() == NewQuestion(title0, content0, tags0, author0)
    {
      title, content, author, tags := Trim(title0), content0, author0, TrimEach(tags0);
      upvotes, downvotes, answers := [], [], [];
      comments, views := [], 0;
    }

    /** What `save()` writes back. */
    function Record(): Question
      reads this
    {
      Question(title, content, author, tags, upvotes, downvotes, answers, comments, views)
    }

    function Ballot(): Votes
      reads this
    {
      Votes(upvotes, downvotes)
    }

    /** `addVote(userId, voteType)` (Question.js:90-105): reassigns both arrays to their filtered
        copies, then pushes the voter; a falsy voter changes nothing. No other field changes. */
    method AddVote(u: Entry, voteType: string)
      modifies this
      ensures Ballot() == QuestionVote(old(Ballot()), u, voteType)
      ensures u.None? ==> Ballot() == old(Ballot())
      ensures Record() == old(Record()).(upvotes := upvotes, downvotes := downvotes)
    {
      if u.None? {
        return;
      }
      upvotes := FilterVoter(upvotes, u.value);
      downvotes := FilterVoter(downvotes, u.value);
      if voteType == "upvote" {
        upvotes := upvotes + [u];
      } else if voteType == "downvote" {
        downvotes := downvotes + [u];
      }
    }
  }

  /** The filter loop over one array. */
  method FilterVoter(s: seq<Entry>, u: UserId) returns (r: seq<Entry>)
    ensures r == WithoutVoter(s, u)
  {
    r := [];
    var i := 0;
    while i < |s|
      invariant 0 <= i <= |s|
      invariant r == WithoutVoter(s[..i], u)
    {
      assert s[..i + 1][..i] == s[..i];
      if Kept(s[i], u) {
        r := r + [s[i]];
      }
      i := i + 1;
    }
    assert s[..|s|] == s;
  }
}
