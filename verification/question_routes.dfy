/** The routes of backend/routes/questions.js that read or change one question: get by id, create,
    update, delete, comment and vote. Each runs its validators, then a chain of early returns on the
    question `findById` finds, then changes the question and saves it.

    `me` is the id the auth middleware puts in `req.user`; the middleware itself is not part of
    this model. The reply body of a successful request is the question as saved. */
module QuestionRoutes {
  import opened Common
  import opened Text
  import opened VoteLists
  import opened UserModel
  import opened QuestionModel
  import opened Db
  import opened Replies

  /** The `tags` field of a request body: absent, an array of strings, or anything else. */
  datatype TagsInput = NoTags | TagList(tags: seq<string>) | NotAList

  /** The store after a request, and the reply sent. */
  datatype Outcome = Outcome(state: State, reply: Reply<Question>)

  // ----- get one -----

  /** GET /:id (questions.js:21-40): a missing question is a 404; otherwise its view count goes up
      by one, it is saved, and the saved question is the reply. */
  function View(s: State, id: QuestionId): (o: Outcome)
    ensures o.state.users == s.users && o.state.answers == s.answers && o.state.nextId == s.nextId
    ensures o.state.questions.Keys == s.questions.Keys
  {
    if id !in s.questions then Outcome(s, Fail(404, QuestionNotFound))
    else
      var q := s.questions[id].(views := s.questions[id].views + 1);
      Outcome(s.(questions := s.questions[id := q]), Ok(200, q))
  }

  /** Reading a question counts one view and changes nothing else, in it or anywhere. */
  lemma ViewCounts(s: State, id: QuestionId)
    ensures var o := View(s, id);
      && (id !in s.questions ==> o == Outcome(s, Fail(404, QuestionNotFound)))
      && (id in s.questions ==>
            && o.reply == Ok(200, o.state.questions[id])
            && o.state.questions[id].views == s.questions[id].views + 1
            && o.state.questions[id].(views := 0) == s.questions[id].(views := 0)
            && forall k :: k in s.questions && k != id ==> o.state.questions[k] == s.questions[k])
  {
  }

  /** Two reads of a question count two views and leave its votes where they were. */
  lemma ViewTwice(s: State, id: QuestionId)
    requires id in s.questions
    ensures var s2 := View(View(s, id).state, id).state;
      && s2.questions[id].views == s.questions[id].views + 2
      && s2.questions[id].Ballot() == s.questions[id].Ballot()
  {
    ViewCounts(s, id);
    ViewCounts(View(s, id).state, id);
  }

  lemma ViewKeepsValid(s: State, id: QuestionId)
    requires ValidState(s)
    ensures ValidState(View(s, id).state)
  {
    if id in s.questions {
      PutQuestionKeepsValid(s, id, s.questions[id].(views := s.questions[id].views + 1));
    }
  }

  method HandleView(db: Store, id: QuestionId) returns (r: Reply<Question>)
    requires db.Valid()
    modifies db
    ensures Outcome(db.Current(), r) == View(old(db.Current()), id)
    ensures db.Valid()
  {
    ViewKeepsValid(db.Current(), id);
    if id !in db.questions {
      return Fail(404, QuestionNotFound);
    }
    var doc := new QuestionDoc.Load(db.questions[id]);
    doc.views := doc.views + 1;
    db.questions := db.questions[id := doc.Record()];
    r := Ok(200, doc.Record());
  }

  // ----- create -----

  /** The create validators, in order: a title and content that are not blank, and tags, when
      given, an array. */
  function CreateErrors(title: string, content: string, tags: TagsInput): (errors: seq<Message>)
    ensures errors == [] <==> Trim(title) != [] && Trim(content) != [] && !tags.NotAList?
  {
    Check(Trim(title) != [], TitleRequired)
      + Check(Trim(content) != [], ContentRequired)
      + Check(!tags.NotAList?, TagsNotArray)
  }

  /** The tags a new question gets: those given, or the schema's default, none. */
  function TagsOf(tags: TagsInput): seq<string>
  {
    if tags.TagList? then tags.tags else []
  }

  /** POST / (questions.js:43-79): the question is built from the trimmed title and content, saved
      under a fresh id, and the author's `questionsAsked` goes up by one. */
  function Create(s: State, me: UserId, title: string, content: string, tags: TagsInput): (o: Outcome)
    ensures o.reply.Ok? || o.state == s
    ensures o.state.answers == s.answers
  {
    var errors := CreateErrors(title, content, tags);
    if errors != [] then Outcome(s, Invalid(errors))
    else
      var q := NewQuestion(Trim(title), Trim(content), TagsOf(tags), me);
      Outcome(s.(questions := s.questions[s.nextId := q], nextId := s.nextId + 1,
                 users := IncUser(s.users, me, QuestionsAsked, 1)),
              Ok(201, q))
  }

  /** Creation succeeds exactly when the validators pass. It then adds one question under an id no
      question had, by `me`, with a non-blank trimmed title and content and no votes, answers or
      views; it changes no other question, and moves `me`'s `questionsAsked` up by one and nothing
      else about any user. */
  lemma CreateOutcome(s: State, me: UserId, title: string, content: string, tags: TagsInput)
    requires ValidState(s)
    ensures var o := Create(s, me, title, content, tags);
      && (o.reply.Ok? <==> Trim(title) != [] && Trim(content) != [] && !tags.NotAList?)
      && (o.reply.Ok? ==>
            var id := s.nextId;
            var q := o.state.questions[id];
            && id !in s.questions
            && o.state.questions.Keys == s.questions.Keys + {id}
            && (forall k :: k in s.questions ==> o.state.questions[k] == s.questions[k])
            && o.reply == Ok(201, q)
            && q.author == me && q.title == Trim(title) && q.title != [] && q.content == Trim(content)
            && (tags.TagList? ==> q.tags == TrimEach(tags.tags)) && (tags.NoTags? ==> q.tags == [])
            && q.Ballot() == Votes([], []) && q.answers == [] && q.comments == [] && q.views == 0
            && o.state.users.Keys == s.users.Keys
            && (me in s.users ==>
                  o.state.users[me] == s.users[me].(questionsAsked := s.users[me].questionsAsked + 1))
            && (forall k :: k in s.users && k != me ==> o.state.users[k] == s.users[k]))
  {
    TrimIdempotent(title);
    IncUserEffect(s.users, me, QuestionsAsked, 1);
  }

  lemma CreateKeepsValid(s: State, me: UserId, title: string, content: string, tags: TagsInput)
    requires ValidState(s)
    ensures ValidState(Create(s, me, title, content, tags).state)
  {
    if CreateErrors(title, content, tags) == [] {
      var q := NewQuestion(Trim(title), Trim(content), TagsOf(tags), me);
      var t := s.(nextId := s.nextId + 1);
      PutQuestionKeepsValid(t, s.nextId, q);
      IncUserKeepsValid(t.(questions := t.questions[s.nextId := q]), me, QuestionsAsked, 1);
    }
  }

  method HandleCreate(db: Store, me: UserId, title: string, content: string, tags: TagsInput)
    returns (r: Reply<Question>)
    requires db.Valid()
    modifies db
    ensures Outcome(db.Current(), r) == Create(old(db.Current()), me, title, content, tags)
    ensures db.Valid()
  {
    CreateKeepsValid(db.Current(), me, title, content, tags);
    var errors := CreateErrors(title, content, tags);
    if errors != [] {
      return Invalid(errors);
    }
    var given := if tags.TagList? then tags.tags else [];
    var doc := new QuestionDoc.New(Trim(title), Trim(content), given, me);
    var id := db.NewId();
    db.questions := db.questions[id := doc.Record()];
    db.IncCounter(me, QuestionsAsked, 1);
    r := Ok(201, doc.Record());
  }

  // ----- update -----

  /** The update validators, in order: a title and content that, when given, are not blank, and
      tags, when given, an array. */
  function UpdateErrors(title: Option<string>, content: Option<string>, tags: TagsInput): (errors: seq<Message>)
    ensures errors == [] <==>
      && (title.Some? ==> Trim(title.value) != [])
      && (content.Some? ==> Trim(content.value) != [])
      && !tags.NotAList?
  {
    Check(title.None? || Trim(title.value) != [], TitleEmpty)
      + Check(content.None? || Trim(content.value) != [], ContentEmpty)
      + Check(!tags.NotAList?, TagsNotArray)
  }

  /** The three `if (…) question.… = …` assignments: a given title or content (trimmed by its
      sanitizer, so not blank once validated) replaces the stored one, and a given array of tags,
      even an empty one, replaces the stored tags, each trimmed by the schema. The schema's trim of
      the title changes nothing after the sanitizer's (TrimIdempotent). */
  function Revise(q: Question, title: Option<string>, content: Option<string>, tags: TagsInput): Question
  {
    q.(title := if title.Some? then Trim(title.value) else q.title,
       content := if content.Some? then Trim(content.value) else q.content,
       tags := if tags.TagList? then TrimEach(tags.tags) else q.tags)
  }

  /** PUT /:id (questions.js:82-127): after the validators, a missing question is a 404 and a
      question by someone else a 403; otherwise the given fields are replaced and it is saved. */
  function Update(s: State, me: UserId, id: QuestionId, title: Option<string>, content: Option<string>,
                  tags: TagsInput): (o: Outcome)
    ensures o.reply.Ok? || o.state == s
    ensures o.state.users == s.users && o.state.answers == s.answers && o.state.nextId == s.nextId
    ensures o.state.questions.Keys == s.questions.Keys
  {
    var errors := UpdateErrors(title, content, tags);
    if errors != [] then Outcome(s, Invalid(errors))
    else if id !in s.questions then Outcome(s, Fail(404, QuestionNotFound))
    else if s.questions[id].author != me then Outcome(s, Fail(403, NotAuthorizedEditQuestion))
    else
      var q := Revise(s.questions[id], title, content, tags);
      Outcome(s.(questions := s.questions[id := q]), Ok(200, q))
  }

  /** Only the author can edit, and an edit touches only the title, content and tags of the one
      question: its author, votes, answers, comments and views stay as they were. */
  lemma UpdateOutcome(s: State, me: UserId, id: QuestionId, title: Option<string>, content: Option<string>,
                      tags: TagsInput)
    ensures var o := Update(s, me, id, title, content, tags);
      && (o.reply.Ok? <==> UpdateErrors(title, content, tags) == [] && id in s.questions && s.questions[id].author == me)
      && (UpdateErrors(title, content, tags) == [] && id in s.questions && s.questions[id].author != me ==>
            o.reply == Fail(403, NotAuthorizedEditQuestion))
      && (o.reply.Ok? ==>
            var q, q' := s.questions[id], o.state.questions[id];
            && o.reply == Ok(200, q')
            && q'.author == q.author && q'.Ballot() == q.Ballot() && q'.answers == q.answers
            && q'.comments == q.comments && q'.views == q.views
            && (title.Some? ==> q'.title == Trim(title.value) && q'.title != [])
            && (content.Some? ==> q'.content == Trim(content.value) && q'.content != [])
            && (title.None? ==> q'.title == q.title) && (content.None? ==> q'.content == q.content)
            && (tags.TagList? ==> q'.tags == TrimEach(tags.tags))
            && (tags.NoTags? ==> q'.tags == q.tags)
            && forall k :: k in s.questions && k != id ==> o.state.questions[k] == s.questions[k])
  {
  }

  /** Sending the same edit twice leaves the store as sending it once: trimming is idempotent. */
  lemma UpdateIdempotent(s: State, me: UserId, id: QuestionId, title: Option<string>, content: Option<string>,
                         tags: TagsInput)
    ensures var s1 := Update(s, me, id, title, content, tags).state;
      Update(s1, me, id, title, content, tags).state == s1
  {
    var o := Update(s, me, id, title, content, tags);
    if o.reply.Ok? {
      var q := o.state.questions[id];
      if title.Some? {
        TrimIdempotent(title.value);
      }
      if content.Some? {
        TrimIdempotent(content.value);
      }
      assert Revise(q, title, content, tags) == q;
      assert o.state.questions[id := q] == o.state.questions;
    }
  }

  lemma UpdateKeepsValid(s: State, me: UserId, id: QuestionId, title: Option<string>, content: Option<string>,
                         tags: TagsInput)
    requires ValidState(s)
    ensures ValidState(Update(s, me, id, title, content, tags).state)
  {
    if id in s.questions {
      PutQuestionKeepsValid(s, id, Revise(s.questions[id], title, content, tags));
    }
  }

  method HandleUpdate(db: Store, me: UserId, id: QuestionId, title: Option<string>, content: Option<string>,
                      tags: TagsInput) returns (r: Reply<Question>)
    requires db.Valid()
    modifies db
    ensures Outcome(db.Current(), r) == Update(old(db.Current()), me, id, title, content, tags)
    ensures db.Valid()
  {
    UpdateKeepsValid(db.Current(), me, id, title, content, tags);
    var errors := UpdateErrors(title, content, tags);
    if errors != [] {
      return Invalid(errors);
    }
    if id !in db.questions {
      return Fail(404, QuestionNotFound);
    }
    var doc := new QuestionDoc.Load(db.questions[id]);
    if doc.author != me {
      return Fail(403, NotAuthorizedEditQuestion);
    }
    if title.Some? {
      doc.title := Trim(title.value);
    }
    if content.Some? {
      doc.content := Trim(content.value);
    }
    if tags.TagList? {
      doc.tags := TrimEach(tags.tags);
    }
    db.questions := db.questions[id := doc.Record()];
    r := Ok(200, doc.Record());
  }

  // ----- delete -----

  /** DELETE /:id (questions.js:130-154): a missing question is a 404 and a question by someone
      else a 403; otherwise the question is removed and the author's `questionsAsked` goes down by
      one. Its answers are not touched. */
  function Delete(s: State, me: UserId, id: QuestionId): (o: Outcome)
    ensures o.reply.Done? || o.state == s
    ensures o.state.answers == s.answers && o.state.nextId == s.nextId
  {
    if id !in s.questions then Outcome(s, Fail(404, QuestionNotFound))
    else if s.questions[id].author != me then Outcome(s, Fail(403, NotAuthorizedDeleteQuestion))
    else Outcome(s.(questions := s.questions - {id}, users := IncUser(s.users, me, QuestionsAsked, -1)),
                 Done(QuestionDeleted))
  }

  /** Only the author can delete. Deletion removes exactly that question, moves the author's
      `questionsAsked` down by one, and leaves every answer in place, including those that pointed
      at the deleted question. */
  lemma DeleteOutcome(s: State, me: UserId, id: QuestionId)
    ensures var o := Delete(s, me, id);
      && (o.reply == Done(QuestionDeleted) <==> id in s.questions && s.questions[id].author == me)
      && (id in s.questions && s.questions[id].author != me ==> o.reply == Fail(403, NotAuthorizedDeleteQuestion))
      && (o.reply.Done? ==>
            && o.state.questions.Keys == s.questions.Keys - {id}
            && (forall k :: k in o.state.questions ==> o.state.questions[k] == s.questions[k])
            && (forall a :: a in s.answers && s.answers[a].question == id ==>
                  a in o.state.answers && o.state.answers[a].question !in o.state.questions)
            && o.state.users.Keys == s.users.Keys
            && (me in s.users ==>
                  o.state.users[me] == s.users[me].(questionsAsked := s.users[me].questionsAsked - 1))
            && (forall k :: k in s.users && k != me ==> o.state.users[k] == s.users[k]))
  {
    IncUserEffect(s.users, me, QuestionsAsked, -1);
  }

  lemma DeleteKeepsValid(s: State, me: UserId, id: QuestionId)
    requires ValidState(s)
    ensures ValidState(Delete(s, me, id).state)
  {
    if id in s.questions && s.questions[id].author == me {
      var t := s.(questions := s.questions - {id});
      RemoveQuestionKeepsValid(s, id);
      IncUserKeepsValid(t, me, QuestionsAsked, -1);
    }
  }

  /** Asking a question and then deleting it gives back the store as it was, except that an id
      has been used up. */
  lemma CreateThenDelete(s: State, me: UserId, title: string, content: string, tags: TagsInput)
    requires ValidState(s) && Create(s, me, title, content, tags).reply.Ok?
    ensures Delete(Create(s, me, title, content, tags).state, me, s.nextId).state == s.(nextId := s.nextId + 1)
  {
    var s1 := Create(s, me, title, content, tags).state;
    var id := s.nextId;
    assert id !in s.questions;
    IncUserCancels(s.users, me, QuestionsAsked, 1);
    assert s1.questions - {id} == s.questions;
  }

  method HandleDelete(db: Store, me: UserId, id: QuestionId) returns (r: Reply<Question>)
    requires db.Valid()
    modifies db
    ensures Outcome(db.Current(), r) == Delete(old(db.Current()), me, id)
    ensures db.Valid()
  {
    DeleteKeepsValid(db.Current(), me, id);
    if id !in db.questions {
      return Fail(404, QuestionNotFound);
    }
    if db.questions[id].author != me {
      return Fail(403, NotAuthorizedDeleteQuestion);
    }
    db.questions := db.questions - {id};
    db.IncCounter(me, QuestionsAsked, -1);
    r := Done(QuestionDeleted);
  }

  // ----- comment -----

  /** POST /:id/comments (questions.js:157-189): after its validator, a missing question is a 404;
      otherwise the trimmed comment, by `me`, is appended and the question saved. */
  function AddComment(s: State, me: UserId, id: QuestionId, content: string): (o: Outcome)
    ensures o.reply.Ok? || o.state == s
    ensures o.state.users == s.users && o.state.answers == s.answers && o.state.nextId == s.nextId
    ensures o.state.questions.Keys == s.questions.Keys
  {
    var errors := Check(Trim(content) != [], CommentRequired);
    if errors != [] then Outcome(s, Invalid(errors))
    else if id !in s.questions then Outcome(s, Fail(404, QuestionNotFound))
    else
      var q := s.questions[id];
      var q' := q.(comments := q.comments + [Comment(Trim(content), me)]);
      Outcome(s.(questions := s.questions[id := q']), Ok(200, q'))
  }

  /** Anyone may comment on an existing question with a non-blank text; the comment goes last, and
      nothing else about any question changes. */
  lemma AddCommentOutcome(s: State, me: UserId, id: QuestionId, content: string)
    ensures var o := AddComment(s, me, id, content);
      && (o.reply.Ok? <==> Trim(content) != [] && id in s.questions)
      && (o.reply.Ok? ==>
            var q, q' := s.questions[id], o.state.questions[id];
            && |q'.comments| == |q.comments| + 1
            && q'.comments[..|q.comments|] == q.comments
            && q'.comments[|q.comments|] == Comment(Trim(content), me)
            && q'.comments[|q.comments|].content != []
            && q'.(comments := q.comments) == q
            && forall k :: k in s.questions && k != id ==> o.state.questions[k] == s.questions[k])
  {
    if Trim(content) != [] && id in s.questions {
      var q, q' := s.questions[id], AddComment(s, me, id, content).state.questions[id];
      assert q'.comments[..|q.comments|] == q.comments;
    }
  }

  lemma AddCommentKeepsValid(s: State, me: UserId, id: QuestionId, content: string)
    requires ValidState(s)
    ensures ValidState(AddComment(s, me, id, content).state)
  {
    if id in s.questions {
      var q := s.questions[id];
      PutQuestionKeepsValid(s, id, q.(comments := q.comments + [Comment(Trim(content), me)]));
    }
  }

  method HandleComment(db: Store, me: UserId, id: QuestionId, content: string) returns (r: Reply<Question>)
    requires db.Valid()
    modifies db
    ensures Outcome(db.Current(), r) == AddComment(old(db.Current()), me, id, content)
    ensures db.Valid()
  {
    AddCommentKeepsValid(db.Current(), me, id, content);
    var errors := Check(Trim(content) != [], CommentRequired);
    if errors != [] {
      return Invalid(errors);
    }
    if id !in db.questions {
      return Fail(404, QuestionNotFound);
    }
    var doc := new QuestionDoc.Load(db.questions[id]);
    doc.comments := doc.comments + [Comment(Trim(content), me)];
    db.questions := db.questions[id := doc.Record()];
    r := Ok(200, doc.Record());
  }

  // ----- vote -----

  /** POST /:id/vote (questions.js:192-225): after its validator, a missing question is a 404;
      otherwise `addVote(me, voteType)` runs and the question is saved. */
  function CastVote(s: State, me: UserId, id: QuestionId, voteType: string): (o: Outcome)
    ensures o.reply.Ok? || o.state == s
    ensures o.state.users == s.users && o.state.answers == s.answers && o.state.nextId == s.nextId
    ensures o.state.questions.Keys == s.questions.Keys
  {
    var errors := VoteTypeErrors(voteType);
    if errors != [] then Outcome(s, Invalid(errors))
    else if id !in s.questions then Outcome(s, Fail(404, QuestionNotFound))
    else
      var q := s.questions[id];
      var v := QuestionVote(q.Ballot(), Some(me), voteType);
      var q' := q.(upvotes := v.up, downvotes := v.down);
      Outcome(s.(questions := s.questions[id := q']), Ok(200, q'))
  }

  /** A vote type other than "upvote" or "downvote" is a 400 and a missing question a 404, both with
      no change. A valid vote on an existing question replaces its two arrays by those its `addVote`
      gives, leaves `me` exactly once in the array it names and not in the other, moves `voteCount`
      by 0, 1 or 2 according to `me`'s earlier vote, and changes nothing else. */
  lemma CastVoteOutcome(s: State, me: UserId, id: QuestionId, voteType: string)
    requires ValidState(s)
    ensures var o := CastVote(s, me, id, voteType);
      && (o.reply.Ok? <==> (voteType == "upvote" || voteType == "downvote") && id in s.questions)
      && (o.reply.Ok? ==>
            var b, b' := s.questions[id].Ballot(), o.state.questions[id].Ballot();
            var up := voteType == "upvote";
            && Count(b'.up, Some(me)) == (if up then 1 else 0)
            && Count(b'.down, Some(me)) == (if up then 0 else 1)
            && b'.VoteCount() == b.VoteCount() + (if up then 1 else -1) * (if (up && Some(me) in b.up) || (!up && Some(me) in b.down) then 0
                                                                          else if b.HasVoted(Some(me)) then 2 else 1)
            && o.state.questions[id].(upvotes := [], downvotes := []) == s.questions[id].(upvotes := [], downvotes := [])
            && forall k :: k in s.questions && k != id ==> o.state.questions[k] == s.questions[k])
    ensures var o := CastVote(s, me, id, voteType);
      && (!(voteType == "upvote" || voteType == "downvote") ==> o == Outcome(s, Invalid([InvalidVoteType])))
      && ((voteType == "upvote" || voteType == "downvote") && id !in s.questions ==> o == Outcome(s, Fail(404, QuestionNotFound)))
      && (o.reply.Ok? ==>
            && o.reply == Ok(200, o.state.questions[id])
            && o.state.questions[id].Ballot() == QuestionVote(s.questions[id].Ballot(), Some(me), voteType))
  {
    if (voteType == "upvote" || voteType == "downvote") && id in s.questions {
      var b := s.questions[id].Ballot();
      var b' := CastVote(s, me, id, voteType).state.questions[id].Ballot();
      assert b' == QuestionVote(b, Some(me), voteType);
      QuestionVoteOutcome(b, Some(me), voteType);
      QuestionVoteCountDelta(b, Some(me), voteType);
    }
  }

  lemma CastVoteKeepsValid(s: State, me: UserId, id: QuestionId, voteType: string)
    requires ValidState(s)
    ensures ValidState(CastVote(s, me, id, voteType).state)
  {
    if id in s.questions {
      var q := s.questions[id];
      var v := QuestionVote(q.Ballot(), Some(me), voteType);
      QuestionVoteKeepsConsistent(q.Ballot(), Some(me), voteType);
      QuestionVoteOutcome(q.Ballot(), Some(me), voteType);
      PutQuestionKeepsValid(s, id, q.(upvotes := v.up, downvotes := v.down));
    }
  }

  method HandleVote(db: Store, me: UserId, id: QuestionId, voteType: string) returns (r: Reply<Question>)
    requires db.Valid()
    modifies db
    ensures Outcome(db.Current(), r) == CastVote(old(db.Current()), me, id, voteType)
    ensures db.Valid()
  {
    CastVoteKeepsValid(db.Current(), me, id, voteType);
    var errors := VoteTypeErrors(voteType);
    if errors != [] {
      return Invalid(errors);
    }
    if id !in db.questions {
      return Fail(404, QuestionNotFound);
    }
    var doc := new QuestionDoc.Load(db.questions[id]);
    doc.AddVote(Some(me), voteType);
    db.questions := db.questions[id := doc.Record()];
    r := Ok(200, doc.Record());
  }
}
