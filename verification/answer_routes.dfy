/** The routes of backend/routes/answers.js that change answers: create, update, delete, comment,
    vote and accept. Like the question routes, each runs its validators, then a chain of early
    returns on what `findById` finds, then changes the documents and saves them.

    `me` is the id the auth middleware puts in `req.user`; the middleware itself is not part of
    this model. The reply body of a successful request is the answer as saved. */
module AnswerRoutes {
  import opened Common
  import opened Text
  import opened VoteLists
  import opened UserModel
  import opened QuestionModel
  import opened AnswerModel
  import opened Db
  import opened Replies

  /** The store after a request, and the reply sent. */
  datatype Outcome = Outcome(state: State, reply: Reply<Answer>)

  // ----- $pull -----

  /** `$pull: { answers: x }`: every occurrence of x leaves the array; the rest keep their order. */
  function Pull(s: seq<AnswerId>, x: AnswerId): seq<AnswerId>
  {
    if s == [] then []
    else Pull(s[..|s| - 1], x) + (if s[|s| - 1] == x then [] else [s[|s| - 1]])
  }

  /** After the pull, x is gone and every other id is listed exactly when it was before. */
  lemma {:induction false} PullMembers(s: seq<AnswerId>, x: AnswerId)
    ensures x !in Pull(s, x)
    ensures forall y :: y != x ==> (y in Pull(s, x) <==> y in s)
  {
    if s != [] {
      var p := s[..|s| - 1];
      PullMembers(p, x);
      assert s == p + [s[|s| - 1]];
    }
  }

  /** The ids of s that lie in S, in the order s lists them. */
  function Among(s: seq<AnswerId>, S: set<AnswerId>): seq<AnswerId>
  {
    if s == [] then []
    else Among(s[..|s| - 1], S) + (if s[|s| - 1] in S then [s[|s| - 1]] else [])
  }

  lemma {:induction false} AmongAppend(a: seq<AnswerId>, b: seq<AnswerId>, S: set<AnswerId>)
    ensures Among(a + b, S) == Among(a, S) + Among(b, S)
    decreases |b|
  {
    if b != [] {
      var c, last := b[..|b| - 1], b[|b| - 1];
      var tail := if last in S then [last] else [];
      assert (a + b)[..|a + b| - 1] == a + c && (a + b)[|a + b| - 1] == last;
      assert Among(a + b, S) == Among(a + c, S) + tail;
      assert Among(b, S) == Among(c, S) + tail;
      AmongAppend(a, c, S);
    } else {
      assert a + b == a;
    }
  }

  /** The pull keeps the ids it keeps in their order: listed among any set of ids without x, the
      array reads the same before and after. */
  lemma {:induction false} PullKeepsOrder(s: seq<AnswerId>, x: AnswerId, S: set<AnswerId>)
    requires x !in S
    ensures Among(Pull(s, x), S) == Among(s, S)
  {
    if s != [] {
      var p, last := s[..|s| - 1], s[|s| - 1];
      PullKeepsOrder(p, x, S);
      AmongAppend(Pull(p, x), if last == x then [] else [last], S);
      assert Among([last], S) == if last in S then [last] else [] by {
        assert [last][..0] == [];
      }
    }
  }

  /** Pulling an id the array does not hold changes nothing. */
  lemma {:induction false} PullAbsent(s: seq<AnswerId>, x: AnswerId)
    requires x !in s
    ensures Pull(s, x) == s
  {
    if s != [] {
      var p := s[..|s| - 1];
      assert s == p + [s[|s| - 1]];
      PullAbsent(p, x);
    }
  }

  /** Pulling an id just pushed onto an array that did not hold it gives the array back. */
  lemma PullPushed(s: seq<AnswerId>, x: AnswerId)
    requires x !in s
    ensures Pull(s + [x], x) == s
  {
    assert (s + [x])[..|s + [x]| - 1] == s;
    PullAbsent(s, x);
  }

  // ----- create -----

  /** The create validators, in order: content that is not blank, and a question id. */
  function CreateErrors(content: string, questionId: Option<QuestionId>): (errors: seq<Message>)
    ensures errors == [] <==> Trim(content) != [] && questionId.Some?
  {
    Check(Trim(content) != [], ContentRequired) + Check(questionId.Some?, QuestionIdRequired)
  }

  /** POST / (answers.js:23-66): after the validators, a missing question is a 404. Otherwise the
      answer, with the trimmed content, is saved under a fresh id, that id is pushed onto the
      question's `answers`, and the author's `questionsAnswered` goes up by one. */
  function Create(s: State, me: UserId, content: string, questionId: Option<QuestionId>): (o: Outcome)
    ensures o.reply.Ok? || o.state == s
  {
    var errors := CreateErrors(content, questionId);
    if errors != [] then Outcome(s, Invalid(errors))
    else if questionId.value !in s.questions then Outcome(s, Fail(404, QuestionNotFound))
    else
      var qid, id := questionId.value, s.nextId;
      var a := NewAnswer(Trim(content), me, qid);
      var q := s.questions[qid];
      Outcome(s.(answers := s.answers[id := a],
                 questions := s.questions[qid := q.(answers := q.answers + [id])],
                 users := IncUser(s.users, me, QuestionsAnswered, 1),
                 nextId := id + 1),
              Ok(201, a))
  }

  /** Creation succeeds exactly when the validators pass and the question exists; for a missing
      question the reply is a 404. On success one answer is added, under an id no answer had, by
      `me`, with the non-blank trimmed content, not accepted and with no votes; the question lists it
      last and changes in nothing else; no other answer or question changes; `me`'s
      `questionsAnswered` goes up by one and nothing else about any user changes. */
  lemma CreateOutcome(s: State, me: UserId, content: string, questionId: Option<QuestionId>)
    requires ValidState(s)
    ensures var o := Create(s, me, content, questionId);
      && (o.reply.Ok? <==> Trim(content) != [] && questionId.Some? && questionId.value in s.questions)
      && (Trim(content) != [] && questionId.Some? && questionId.value !in s.questions ==>
            o == Outcome(s, Fail(404, QuestionNotFound)))
      && (o.reply.Ok? ==>
            var id, qid := s.nextId, questionId.value;
            var a, q, q' := o.state.answers[id], s.questions[qid], o.state.questions[qid];
            && id !in s.answers && id !in q.answers
            && o.state.answers.Keys == s.answers.Keys + {id}
            && (forall k :: k in s.answers ==> o.state.answers[k] == s.answers[k])
            && o.reply == Ok(201, a)
            && a.author == me && a.question == qid && a.content == Trim(content) && a.content != []
            && !a.isAccepted && a.Ballot() == Votes([], []) && a.comments == []
            && q'.answers == q.answers + [id] && q'.(answers := q.answers) == q
            && o.state.questions.Keys == s.questions.Keys
            && (forall k :: k in s.questions && k != qid ==> o.state.questions[k] == s.questions[k])
            && o.state.users.Keys == s.users.Keys
            && (me in s.users ==>
                  o.state.users[me] == s.users[me].(questionsAnswered := s.users[me].questionsAnswered + 1))
            && (forall k :: k in s.users && k != me ==> o.state.users[k] == s.users[k]))
  {
    IncUserEffect(s.users, me, QuestionsAnswered, 1);
  }

  lemma CreateKeepsValid(s: State, me: UserId, content: string, questionId: Option<QuestionId>)
    requires ValidState(s)
    ensures ValidState(Create(s, me, content, questionId).state)
  {
    if CreateErrors(content, questionId) == [] && questionId.value in s.questions {
      var qid, id := questionId.value, s.nextId;
      var a := NewAnswer(Trim(content), me, qid);
      var q := s.questions[qid];
      var t := s.(nextId := id + 1);
      assert ValidState(t) by {
        forall k | k in t.questions ensures ListsDrawn(t.questions[k], t.nextId) {
          assert ListsDrawn(s.questions[k], s.nextId);
        }
      }
      PutAnswerKeepsValid(t, id, a);
      var t2 := t.(answers := t.answers[id := a]);
      PutQuestionKeepsValid(t2, qid, q.(answers := q.answers + [id]));
      IncUserKeepsValid(t2.(questions := t2.questions[qid := q.(answers := q.answers + [id])]), me, QuestionsAnswered, 1);
    }
  }

  method HandleCreate(db: Store, me: UserId, content: string, questionId: Option<QuestionId>)
    returns (r: Reply<Answer>)
    requires db.Valid()
    modifies db
    ensures Outcome(db.Current(), r) == Create(old(db.Current()), me, content, questionId)
    ensures db.Valid()
  {
    CreateKeepsValid(db.Current(), me, content, questionId);
    var errors := CreateErrors(content, questionId);
    if errors != [] {
      return Invalid(errors);
    }
    var qid := questionId.value;
    if qid !in db.questions {
      return Fail(404, QuestionNotFound);
    }
    var question := new QuestionDoc.Load(db.questions[qid]);
    var answer := new AnswerDoc.New(Trim(content), me, qid);
    var id := db.NewId();
    db.answers := db.answers[id := answer.Record()];
    question.answers := question.answers + [id];
    db.questions := db.questions[qid := question.Record()];
    db.IncCounter(me, QuestionsAnswered, 1);
    r := Ok(201, answer.Record());
  }

  // ----- update -----

  /** PUT /:id (answers.js:69-96): after its validator, a missing answer is a 404 and an answer by
      someone else a 403; otherwise the trimmed content replaces the stored one and it is saved. */
  function Update(s: State, me: UserId, id: AnswerId, content: string): (o: Outcome)
    ensures o.reply.Ok? || o.state == s
    ensures o.state.users == s.users && o.state.questions == s.questions && o.state.nextId == s.nextId
    ensures o.state.answers.Keys == s.answers.Keys
  {
    var errors := Check(Trim(content) != [], ContentEmpty);
    if errors != [] then Outcome(s, Invalid(errors))
    else if id !in s.answers then Outcome(s, Fail(404, AnswerNotFound))
    else if s.answers[id].author != me then Outcome(s, Fail(403, NotAuthorizedEditAnswer))
    else
      var a := s.answers[id].(content := Trim(content));
      Outcome(s.(answers := s.answers[id := a]), Ok(200, a))
  }

  /** Only the author can edit, and an edit replaces only the content of the one answer, by the
      non-blank trimmed text sent. */
  lemma UpdateOutcome(s: State, me: UserId, id: AnswerId, content: string)
    ensures var o := Update(s, me, id, content);
      && (o.reply.Ok? <==> Trim(content) != [] && id in s.answers && s.answers[id].author == me)
      && (Trim(content) != [] && id in s.answers && s.answers[id].author != me ==>
            o == Outcome(s, Fail(403, NotAuthorizedEditAnswer)))
      && (o.reply.Ok? ==>
            var a, a' := s.answers[id], o.state.answers[id];
            && o.reply == Ok(200, a')
            && a'.content == Trim(content) && a'.content != []
            && a'.(content := a.content) == a
            && forall k :: k in s.answers && k != id ==> o.state.answers[k] == s.answers[k])
  {
  }

  /** Sending the same edit twice leaves the store as sending it once. */
  lemma UpdateIdempotent(s: State, me: UserId, id: AnswerId, content: string)
    ensures var s1 := Update(s, me, id, content).state;
      Update(s1, me, id, content).state == s1
  {
    var o := Update(s, me, id, content);
    if o.reply.Ok? {
      assert o.state.answers[id := o.state.answers[id]] == o.state.answers;
    }
  }

  lemma UpdateKeepsValid(s: State, me: UserId, id: AnswerId, content: string)
    requires ValidState(s)
    ensures ValidState(Update(s, me, id, content).state)
  {
    if id in s.answers {
      PutAnswerKeepsValid(s, id, s.answers[id].(content := Trim(content)));
    }
  }

  method HandleUpdate(db: Store, me: UserId, id: AnswerId, content: string) returns (r: Reply<Answer>)
    requires db.Valid()
    modifies db
    ensures Outcome(db.Current(), r) == Update(old(db.Current()), me, id, content)
    ensures db.Valid()
  {
    UpdateKeepsValid(db.Current(), me, id, content);
    var errors := Check(Trim(content) != [], ContentEmpty);
    if errors != [] {
      return Invalid(errors);
    }
    if id !in db.answers {
      return Fail(404, AnswerNotFound);
    }
    var answer := new AnswerDoc.Load(db.answers[id]);
    if answer.author != me {
      return Fail(403, NotAuthorizedEditAnswer);
    }
    answer.content := Trim(content);
    db.answers := db.answers[id := answer.Record()];
    r := Ok(200, answer.Record());
  }

  // ----- delete -----

  /** The questions after `Question.findByIdAndUpdate(qid, { $pull: { answers: id } })`: when the
      question exists, id leaves its `answers`; when it does not, nothing happens. */
  function PullAnswer(questions: map<QuestionId, Question>, qid: QuestionId, id: AnswerId): map<QuestionId, Question>
  {
    if qid in questions then questions[qid := questions[qid].(answers := Pull(questions[qid].answers, id))]
    else questions
  }

  /** DELETE /:id (answers.js:99-126): a missing answer is a 404 and an answer by someone else a
      403; otherwise its id is pulled from its question's `answers`, it is removed, and the
      requester's `questionsAnswered` goes down by one. */
  function Delete(s: State, me: UserId, id: AnswerId): (o: Outcome)
    ensures o.reply.Done? || o.state == s
    ensures o.state.nextId == s.nextId
  {
    if id !in s.answers then Outcome(s, Fail(404, AnswerNotFound))
    else if s.answers[id].author != me then Outcome(s, Fail(403, NotAuthorizedDeleteAnswer))
    else Outcome(s.(questions := PullAnswer(s.questions, s.answers[id].question, id),
                    answers := s.answers - {id},
                    users := IncUser(s.users, me, QuestionsAnswered, -1)),
                 Done(AnswerDeleted))
  }

  /** Only the author can delete. Deletion removes exactly that answer; its question, if it still
      exists, no longer lists it and lists every other answer it listed before, and changes in
      nothing else, the ids it keeps staying in their order; no other question changes; the
      requester's `questionsAnswered` goes down by one. */
  lemma DeleteOutcome(s: State, me: UserId, id: AnswerId)
    ensures var o := Delete(s, me, id);
      && (o.reply == Done(AnswerDeleted) <==> id in s.answers && s.answers[id].author == me)
      && (id in s.answers && s.answers[id].author != me ==> o == Outcome(s, Fail(403, NotAuthorizedDeleteAnswer)))
      && (o.reply.Done? ==>
            var qid := s.answers[id].question;
            && o.state.answers.Keys == s.answers.Keys - {id}
            && (forall k :: k in o.state.answers ==> o.state.answers[k] == s.answers[k])
            && o.state.questions.Keys == s.questions.Keys
            && (qid in s.questions ==>
                  var q, q' := s.questions[qid], o.state.questions[qid];
                  && id !in q'.answers
                  && (forall k :: k != id ==> (k in q'.answers <==> k in q.answers))
                  && (forall S: set<AnswerId> :: id !in S ==> Among(q'.answers, S) == Among(q.answers, S))
                  && q'.(answers := q.answers) == q)
            && (forall k :: k in s.questions && k != qid ==> o.state.questions[k] == s.questions[k])
            && o.state.users.Keys == s.users.Keys
            && (me in s.users ==>
                  o.state.users[me] == s.users[me].(questionsAnswered := s.users[me].questionsAnswered - 1))
            && (forall k :: k in s.users && k != me ==> o.state.users[k] == s.users[k]))
  {
    if id in s.answers && s.answers[id].author == me {
      var qid := s.answers[id].question;
      if qid in s.questions {
        var ids := s.questions[qid].answers;
        PullMembers(ids, id);
        forall S: set<AnswerId> | id !in S ensures Among(Pull(ids, id), S) == Among(ids, S) {
          PullKeepsOrder(ids, id, S);
        }
      }
      IncUserEffect(s.users, me, QuestionsAnswered, -1);
    }
  }

  lemma DeleteKeepsValid(s: State, me: UserId, id: AnswerId)
    requires ValidState(s)
    ensures ValidState(Delete(s, me, id).state)
  {
    if id in s.answers && s.answers[id].author == me {
      var qid := s.answers[id].question;
      var t := s.(questions := PullAnswer(s.questions, qid, id));
      if qid in s.questions {
        var q := s.questions[qid];
        PullMembers(q.answers, id);
        assert ListsDrawn(q, s.nextId);
        PutQuestionKeepsValid(s, qid, q.(answers := Pull(q.answers, id)));
      }
      RemoveAnswerKeepsValid(t, id);
      IncUserKeepsValid(t.(answers := t.answers - {id}), me, QuestionsAnswered, -1);
    }
  }

  /** Answering a question and then deleting the answer gives back the store as it was, except that
      an id has been used up. */
  lemma CreateThenDelete(s: State, me: UserId, content: string, questionId: Option<QuestionId>)
    requires ValidState(s) && Create(s, me, content, questionId).reply.Ok?
    ensures Delete(Create(s, me, content, questionId).state, me, s.nextId).state == s.(nextId := s.nextId + 1)
  {
    var s1 := Create(s, me, content, questionId).state;
    var id, qid := s.nextId, questionId.value;
    var q := s.questions[qid];
    assert id !in s.answers;
    assert id !in q.answers by {
      assert ListsDrawn(q, s.nextId);
    }
    PullPushed(q.answers, id);
    assert PullAnswer(s1.questions, qid, id) == s.questions;
    assert s1.answers - {id} == s.answers;
    IncUserCancels(s.users, me, QuestionsAnswered, 1);
  }

  method HandleDelete(db: Store, me: UserId, id: AnswerId) returns (r: Reply<Answer>)
    requires db.Valid()
    modifies db
    ensures Outcome(db.Current(), r) == Delete(old(db.Current()), me, id)
    ensures db.Valid()
  {
    DeleteKeepsValid(db.Current(), me, id);
    if id !in db.answers {
      return Fail(404, AnswerNotFound);
    }
    var answer := db.answers[id];
    if answer.author != me {
      return Fail(403, NotAuthorizedDeleteAnswer);
    }
    db.questions := PullAnswer(db.questions, answer.question, id);
    db.answers := db.answers - {id};
    db.IncCounter(me, QuestionsAnswered, -1);
    r := Done(AnswerDeleted);
  }

  // ----- comment -----

  /** POST /:id/comments (answers.js:129-155): after its validator, a missing answer is a 404;
      otherwise the trimmed comment, by `me`, is appended and the answer saved. */
  function AddComment(s: State, me: UserId, id: AnswerId, content: string): (o: Outcome)
    ensures o.reply.Ok? || o.state == s
    ensures o.state.users == s.users && o.state.questions == s.questions && o.state.nextId == s.nextId
    ensures o.state.answers.Keys == s.answers.Keys
  {
    var errors := Check(Trim(content) != [], CommentRequired);
    if errors != [] then Outcome(s, Invalid(errors))
    else if id !in s.answers then Outcome(s, Fail(404, AnswerNotFound))
    else
      var a := s.answers[id];
      var a' := a.(comments := a.comments + [Comment(Trim(content), me)]);
      Outcome(s.(answers := s.answers[id := a']), Ok(200, a'))
  }

  /** Anyone may comment on an existing answer with a non-blank text; the comment goes last, the
      earlier ones stay as they were, and nothing else about any answer changes. */
  lemma AddCommentOutcome(s: State, me: UserId, id: AnswerId, content: string)
    ensures var o := AddComment(s, me, id, content);
      && (o.reply.Ok? <==> Trim(content) != [] && id in s.answers)
      && (o.reply.Ok? ==>
            var a, a' := s.answers[id], o.state.answers[id];
            && |a'.comments| == |a.comments| + 1
            && a'.comments[..|a.comments|] == a.comments
            && a'.comments[|a.comments|] == Comment(Trim(content), me)
            && a'.comments[|a.comments|].content != []
            && a'.(comments := a.comments) == a
            && forall k :: k in s.answers && k != id ==> o.state.answers[k] == s.answers[k])
  {
    if Trim(content) != [] && id in s.answers {
      var a, a' := s.answers[id], AddComment(s, me, id, content).state.answers[id];
      assert a'.comments[..|a.comments|] == a.comments;
    }
  }

  lemma AddCommentKeepsValid(s: State, me: UserId, id: AnswerId, content: string)
    requires ValidState(s)
    ensures ValidState(AddComment(s, me, id, content).state)
  {
    if id in s.answers {
      var a := s.answers[id];
      PutAnswerKeepsValid(s, id, a.(comments := a.comments + [Comment(Trim(content), me)]));
    }
  }

  method HandleComment(db: Store, me: UserId, id: AnswerId, content: string) returns (r: Reply<Answer>)
    requires db.Valid()
    modifies db
    ensures Outcome(db.Current(), r) == AddComment(old(db.Current()), me, id, content)
    ensures db.Valid()
  {
    AddCommentKeepsValid(db.Current(), me, id, content);
    var errors := Check(Trim(content) != [], CommentRequired);
    if errors != [] {
      return Invalid(errors);
    }
    if id !in db.answers {
      return Fail(404, AnswerNotFound);
    }
    var answer := new AnswerDoc.Load(db.answers[id]);
    answer.comments := answer.comments + [Comment(Trim(content), me)];
    db.answers := db.answers[id := answer.Record()];
    r := Ok(200, answer.Record());
  }

  // ----- vote -----

  /** POST /:id/vote (answers.js:158-182): after its validator, a missing answer is a 404;
      otherwise the answer's `addVote(me, voteType)` runs and the answer is saved. */
  function CastVote(s: State, me: UserId, id: AnswerId, voteType: string): (o: Outcome)
    ensures o.reply.Ok? || o.state == s
    ensures o.state.users == s.users && o.state.questions == s.questions && o.state.nextId == s.nextId
    ensures o.state.answers.Keys == s.answers.Keys
  {
    var errors := VoteTypeErrors(voteType);
    if errors != [] then Outcome(s, Invalid(errors))
    else if id !in s.answers then Outcome(s, Fail(404, AnswerNotFound))
    else
      var a := s.answers[id];
      var v := AnswerVote(a.Ballot(), Some(me), voteType);
      var a' := a.(upvotes := v.up, downvotes := v.down);
      Outcome(s.(answers := s.answers[id := a']), Ok(200, a'))
  }

  /** A vote type other than "upvote" or "downvote" is a 400 and a missing answer a 404, both with
      no change. A valid vote on an existing answer replaces its two arrays by those its `addVote`
      gives, leaves `me` exactly once in the array it names and not in the other, moves `voteCount`
      by 0, 1 or 2 according to `me`'s earlier vote, and changes nothing else. */
  lemma CastVoteOutcome(s: State, me: UserId, id: AnswerId, voteType: string)
    requires ValidState(s)
    ensures var o := CastVote(s, me, id, voteType);
      && (o.reply.Ok? <==> (voteType == "upvote" || voteType == "downvote") && id in s.answers)
      && (o.reply.Ok? ==>
            var b, b' := s.answers[id].Ballot(), o.state.answers[id].Ballot();
            var up := voteType == "upvote";
            && Count(b'.up, Some(me)) == (if up then 1 else 0)
            && Count(b'.down, Some(me)) == (if up then 0 else 1)
            && b'.VoteCount() == b.VoteCount() + (if up then 1 else -1) * (if (up && Some(me) in b.up) || (!up && Some(me) in b.down) then 0
                                                                          else if b.HasVoted(Some(me)) then 2 else 1)
            && o.state.answers[id].(upvotes := [], downvotes := []) == s.answers[id].(upvotes := [], downvotes := [])
            && forall k :: k in s.answers && k != id ==> o.state.answers[k] == s.answers[k])
    ensures var o := CastVote(s, me, id, voteType);
      && (!(voteType == "upvote" || voteType == "downvote") ==> o == Outcome(s, Invalid([InvalidVoteType])))
      && ((voteType == "upvote" || voteType == "downvote") && id !in s.answers ==> o == Outcome(s, Fail(404, AnswerNotFound)))
      && (o.reply.Ok? ==>
            && o.reply == Ok(200, o.state.answers[id])
            && o.state.answers[id].Ballot() == AnswerVote(s.answers[id].Ballot(), Some(me), voteType))
  {
    if (voteType == "upvote" || voteType == "downvote") && id in s.answers {
      var b := s.answers[id].Ballot();
      AnswerVoteCasts(b, Some(me), voteType);
      AnswerVoteCountDelta(b, Some(me), voteType);
    }
  }

  lemma CastVoteKeepsValid(s: State, me: UserId, id: AnswerId, voteType: string)
    requires ValidState(s)
    ensures ValidState(CastVote(s, me, id, voteType).state)
  {
    if id in s.answers {
      var a := s.answers[id];
      var v := AnswerVote(a.Ballot(), Some(me), voteType);
      AnswerVoteKeepsConsistent(a.Ballot(), Some(me), voteType);
      PutAnswerKeepsValid(s, id, a.(upvotes := v.up, downvotes := v.down));
    }
  }

  method HandleVote(db: Store, me: UserId, id: AnswerId, voteType: string) returns (r: Reply<Answer>)
    requires db.Valid()
    modifies db
    ensures Outcome(db.Current(), r) == CastVote(old(db.Current()), me, id, voteType)
    ensures db.Valid()
  {
    CastVoteKeepsValid(db.Current(), me, id, voteType);
    var errors := VoteTypeErrors(voteType);
    if errors != [] {
      return Invalid(errors);
    }
    if id !in db.answers {
      return Fail(404, AnswerNotFound);
    }
    var answer := new AnswerDoc.Load(db.answers[id]);
    answer.AddVote(Some(me), voteType);
    db.answers := db.answers[id := answer.Record()];
    r := Ok(200, answer.Record());
  }

  // ----- accept -----

  /** The reputation an accepted answer earns its author. */
  const AcceptBonus: int := 15

  /** POST /:id/accept (answers.js:185-214): a missing answer or a missing question is a 404, and a
      requester who did not ask the question gets a 403; otherwise the answer is marked accepted and
      saved, and its author's reputation goes up by 15. Nothing checks whether it was already
      accepted, or whether another answer to the question was. */
  function Accept(s: State, me: UserId, id: AnswerId): (o: Outcome)
    ensures o.reply.Ok? || o.state == s
    ensures o.state.questions == s.questions && o.state.nextId == s.nextId
    ensures o.state.answers.Keys == s.answers.Keys
  {
    if id !in s.answers then Outcome(s, Fail(404, AnswerNotFound))
    else
      var a := s.answers[id];
      if a.question !in s.questions then Outcome(s, Fail(404, QuestionNotFound))
      else if s.questions[a.question].author != me then Outcome(s, Fail(403, OnlyQuestionAuthor))
      else
        var a' := a.(isAccepted := true);
        Outcome(s.(answers := s.answers[id := a'], users := IncUser(s.users, a.author, Reputation, AcceptBonus)),
                Ok(200, a'))
  }

  /** Only the author of the answered question can accept, and only while that question exists.
      Accepting marks the one answer accepted and changes nothing else about it or any other
      answer, adds exactly 15 to the reputation of the answer's author, and changes nothing else
      about any user. */
  lemma AcceptOutcome(s: State, me: UserId, id: AnswerId)
    ensures var o := Accept(s, me, id);
      && (o.reply.Ok? <==> id in s.answers && s.answers[id].question in s.questions
                           && s.questions[s.answers[id].question].author == me)
      && (id !in s.answers ==> o.reply == Fail(404, AnswerNotFound))
      && (id in s.answers && s.answers[id].question !in s.questions ==> o.reply == Fail(404, QuestionNotFound))
      && (id in s.answers && s.answers[id].question in s.questions && s.questions[s.answers[id].question].author != me ==>
            o.reply == Fail(403, OnlyQuestionAuthor))
      && (o.reply.Ok? ==>
            var a, a' := s.answers[id], o.state.answers[id];
            && o.reply == Ok(200, a')
            && a'.isAccepted && a'.(isAccepted := a.isAccepted) == a
            && (forall k :: k in s.answers && k != id ==> o.state.answers[k] == s.answers[k])
            && o.state.users.Keys == s.users.Keys
            && (a.author in s.users ==>
                  && o.state.users[a.author].reputation == s.users[a.author].reputation + 15
                  && o.state.users[a.author].Profile() == s.users[a.author].Profile()
                  && o.state.users[a.author].questionsAsked == s.users[a.author].questionsAsked
                  && o.state.users[a.author].questionsAnswered == s.users[a.author].questionsAnswered)
            && (forall k :: k in s.users && k != a.author ==> o.state.users[k] == s.users[k]))
  {
    if id in s.answers {
      var a := s.answers[id];
      IncUserEffect(s.users, a.author, Reputation, AcceptBonus);
      if a.author in s.users {
        var u := IncUser(s.users, a.author, Reputation, AcceptBonus)[a.author];
        assert u.Get(QuestionsAsked) == s.users[a.author].Get(QuestionsAsked);
        assert u.Get(QuestionsAnswered) == s.users[a.author].Get(QuestionsAnswered);
      }
    }
  }

  /** Accepting the same answer a second time succeeds again, leaves the answer as the first time
      did, and adds another 15: the author gains 30 in all. */
  lemma AcceptTwice(s: State, me: UserId, id: AnswerId)
    requires Accept(s, me, id).reply.Ok?
    ensures var s1 := Accept(s, me, id).state;
      var o2 := Accept(s1, me, id);
      var author := s.answers[id].author;
      && o2.reply.Ok?
      && o2.state.answers == s1.answers
      && (author in s.users ==> o2.state.users[author].reputation == s.users[author].reputation + 30)
  {
    var s1 := Accept(s, me, id).state;
    var a := s.answers[id];
    assert s1.answers[id] == a.(isAccepted := true);
    assert s1.answers[id := s1.answers[id]] == s1.answers;
    IncUserEffect(s.users, a.author, Reputation, AcceptBonus);
    IncUserEffect(s1.users, a.author, Reputation, AcceptBonus);
  }

  lemma AcceptKeepsValid(s: State, me: UserId, id: AnswerId)
    requires ValidState(s)
    ensures ValidState(Accept(s, me, id).state)
  {
    if id in s.answers {
      var a := s.answers[id];
      var t := s.(answers := s.answers[id := a.(isAccepted := true)]);
      PutAnswerKeepsValid(s, id, a.(isAccepted := true));
      IncUserKeepsValid(t, a.author, Reputation, AcceptBonus);
    }
  }

  method HandleAccept(db: Store, me: UserId, id: AnswerId) returns (r: Reply<Answer>)
    requires db.Valid()
    modifies db
    ensures Outcome(db.Current(), r) == Accept(old(db.Current()), me, id)
    ensures db.Valid()
  {
    AcceptKeepsValid(db.Current(), me, id);
    if id !in db.answers {
      return Fail(404, AnswerNotFound);
    }
    var answer := new AnswerDoc.Load(db.answers[id]);
    if answer.question !in db.questions {
      return Fail(404, QuestionNotFound);
    }
    if db.questions[answer.question].author != me {
      return Fail(403, OnlyQuestionAuthor);
    }
    answer.isAccepted := true;
    db.answers := db.answers[id := answer.Record()];
    db.IncCounter(answer.author, Reputation, AcceptBonus);
    r := Ok(200, answer.Record());
  }
}
