/** The three collections the routes read and write (users, questions, answers), held in memory.
    Each route handler is modelled as one atomic step on this store. */
module Db {
  import opened Common
  import opened VoteLists
  import opened UserModel
  import opened QuestionModel
  import opened AnswerModel

  /** The contents of the store. ObjectIds are drawn from one counter, `nextId`. */
  datatype State = State(
    users: map<UserId, User>,
    questions: map<QuestionId, Question>,
    answers: map<AnswerId, Answer>,
    nextId: nat)

  /** Some stored user has email e. */
  ghost predicate EmailTaken(users: map<UserId, User>, e: string)
  {
    exists id :: id in users && users[id].email == e
  }

  /** The `unique: true` index on `email`. */
  ghost predicate EmailsUnique(users: map<UserId, User>)
  {
    forall a, b :: a in users && b in users && users[a].email == users[b].email ==> a == b
  }

  /** `User.findOne({ email: e })`: the user stored with email e, if any. */
  ghost function Owner(users: map<UserId, User>, e: string): (r: Option<UserId>)
    ensures r.Some? <==> EmailTaken(users, e)
    ensures r.Some? ==> r.value in users && users[r.value].email == e
  {
    if EmailTaken(users, e) then
      var id :| id in users && users[id].email == e;
      Some(id)
    else None
  }

  /** Under the unique index the owner of an email is the one user stored with it. */
  lemma OwnerUnique(users: map<UserId, User>, e: string, id: UserId)
    requires EmailsUnique(users) && id in users && users[id].email == e
    ensures Owner(users, e) == Some(id)
  {
  }

  /** The users collection's own rule: the unique index on `email`. */
  ghost predicate UsersValid(users: map<UserId, User>)
  {
    EmailsUnique(users)
  }

  /** Every question's vote arrays keep the ledger invariant and hold no null. */
  ghost predicate QuestionsValid(questions: map<QuestionId, Question>)
  {
    forall id :: id in questions ==> Consistent(questions[id].Ballot()) && NoNulls(questions[id].Ballot())
  }

  /** Every answer's vote arrays keep the ledger invariant and hold no null. */
  ghost predicate AnswersValid(answers: map<AnswerId, Answer>)
  {
    forall id :: id in answers ==> Consistent(answers[id].Ballot()) && NoNulls(answers[id].Ballot())
  }

  /** Every answer id a question lists was drawn before n. */
  predicate ListsDrawn(q: Question, n: nat)
  {
    forall a :: a in q.answers ==> a < n
  }

  /** Every id in the store, including those the questions list as their answers, was drawn before
      `nextId`. */
  predicate IdsDrawn(s: State)
  {
    && (forall id :: id in s.users ==> id < s.nextId)
    && (forall id :: id in s.questions ==> id < s.nextId && ListsDrawn(s.questions[id], s.nextId))
    && (forall id :: id in s.answers ==> id < s.nextId)
  }

  /** What every route keeps true of the store. */
  ghost predicate ValidState(s: State)
  {
    IdsDrawn(s) && UsersValid(s.users) && QuestionsValid(s.questions) && AnswersValid(s.answers)
  }

  /** `User.findByIdAndUpdate(id, { $inc: { c: d } })`: when the user exists, counter c moves by d;
      when it does not, nothing happens. No other user changes. */
  function IncUser(users: map<UserId, User>, id: UserId, c: Counter, d: int): (r: map<UserId, User>)
    ensures r.Keys == users.Keys
  {
    if id in users then users[id := users[id].Inc(c, d)] else users
  }

  /** What a counter update does: counter c of user id moves by d, its other counters and the rest of
      its profile stay, and every other user stays as it was. */
  lemma IncUserEffect(users: map<UserId, User>, id: UserId, c: Counter, d: int)
    ensures var r := IncUser(users, id, c, d);
      && (forall k :: k in users && k != id ==> r[k] == users[k])
      && (id in users ==> r[id].Get(c) == users[id].Get(c) + d && r[id].Profile() == users[id].Profile())
      && (id in users ==> forall c' :: c' != c ==> r[id].Get(c') == users[id].Get(c'))
  {
  }

  /** A counter update never touches what the store invariant is about. */
  lemma IncUserKeepsValid(s: State, id: UserId, c: Counter, d: int)
    requires ValidState(s)
    ensures ValidState(s.(users := IncUser(s.users, id, c, d)))
  {
    var u := IncUser(s.users, id, c, d);
    IncUserEffect(s.users, id, c, d);
    forall k | k in u ensures u[k].email == s.users[k].email {
      if k == id {
        assert u[k].Profile().email == u[k].email;
      }
    }
    SameEmailsKeepValid(s, u);
  }

  /** Replacing users by ones with the same ids and the same emails keeps the store invariant. */
  lemma SameEmailsKeepValid(s: State, u: map<UserId, User>)
    requires ValidState(s)
    requires u.Keys == s.users.Keys && forall k :: k in u ==> u[k].email == s.users[k].email
    ensures ValidState(s.(users := u))
  {
    SameEmailsKeepUnique(s.users, u);
    var t := s.(users := u);
    assert t.questions == s.questions && t.answers == s.answers && t.nextId == s.nextId;
    assert IdsDrawn(t);
  }

  lemma SameEmailsKeepUnique(users: map<UserId, User>, u: map<UserId, User>)
    requires EmailsUnique(users)
    requires u.Keys == users.Keys && forall k :: k in u ==> u[k].email == users[k].email
    ensures EmailsUnique(u)
  {
    forall a, b | a in u && b in u && u[a].email == u[b].email ensures a == b {
      assert users[a].email == users[b].email;
    }
  }

  /** Storing a user with an email nobody has, under the next id, keeps the store invariant. */
  lemma AddUserKeepsValid(s: State, u: User)
    requires ValidState(s) && !EmailTaken(s.users, u.email)
    ensures ValidState(s.(users := s.users[s.nextId := u], nextId := s.nextId + 1))
  {
    var t := s.users[s.nextId := u];
    forall a, b | a in t && b in t && t[a].email == t[b].email ensures a == b {
      if a != s.nextId && b != s.nextId {
        assert s.users[a].email == s.users[b].email;
      }
    }
  }

  /** Two opposite counter updates cancel out. */
  lemma IncUserCancels(users: map<UserId, User>, id: UserId, c: Counter, d: int)
    ensures IncUser(IncUser(users, id, c, d), id, c, -d) == users
  {
    if id in users {
      var u := users[id];
      var w := IncUser(IncUser(users, id, c, d), id, c, -d);
      IncUserEffect(users, id, c, d);
      IncUserEffect(IncUser(users, id, c, d), id, c, -d);
      assert w[id].Profile() == u.Profile() && w[id].Get(c) == u.Get(c);
      assert forall c' :: w[id].Get(c') == u.Get(c');
      assert w[id] == u by {
        assert w[id].questionsAsked == u.questionsAsked by { assert w[id].Get(QuestionsAsked) == u.Get(QuestionsAsked); }
        assert w[id].questionsAnswered == u.questionsAnswered by { assert w[id].Get(QuestionsAnswered) == u.Get(QuestionsAnswered); }
        assert w[id].reputation == u.reputation by { assert w[id].Get(Reputation) == u.Get(Reputation); }
      }
    }
  }

  /** Storing a question whose vote arrays keep the ledger invariant and hold no null, and which
      lists only answer ids already drawn, under an id already drawn, keeps the store invariant. */
  lemma PutQuestionKeepsValid(s: State, id: QuestionId, q: Question)
    requires ValidState(s) && id < s.nextId && Consistent(q.Ballot()) && NoNulls(q.Ballot())
    requires ListsDrawn(q, s.nextId)
    ensures ValidState(s.(questions := s.questions[id := q]))
  {
  }

  /** Removing a question keeps the store invariant. */
  lemma RemoveQuestionKeepsValid(s: State, id: QuestionId)
    requires ValidState(s)
    ensures ValidState(s.(questions := s.questions - {id}))
  {
  }

  /** Storing an answer whose vote arrays keep the ledger invariant and hold no null, under an id
      already drawn, keeps the store invariant. */
  lemma PutAnswerKeepsValid(s: State, id: AnswerId, a: Answer)
    requires ValidState(s) && id < s.nextId && Consistent(a.Ballot()) && NoNulls(a.Ballot())
    ensures ValidState(s.(answers := s.answers[id := a]))
  {
  }

  /** Removing an answer keeps the store invariant. */
  lemma RemoveAnswerKeepsValid(s: State, id: AnswerId)
    requires ValidState(s)
    ensures ValidState(s.(answers := s.answers - {id}))
  {
  }

  /** The in-memory store. */
  class Store {
    var users: map<UserId, User>
    var questions: map<QuestionId, Question>
    var answers: map<AnswerId, Answer>
    var nextId: nat

    function Current(): State
      reads this
    {
      State(users, questions, answers, nextId)
    }

    ghost predicate Valid()
      reads this
    {
      ValidState(Current())
    }

    constructor Empty()
      ensures Current() == State(map[], map[], map[], 0) && Valid()
    {
      users, questions, answers, nextId := map[], map[], map[], 0;
    }

    /** `User.findOne({ email: e })`, scanning the stored users. */
    method FindByEmail(e: string) returns (r: Option<UserId>)
      ensures r.Some? ==> r.value in users && users[r.value].email == e
      ensures r.None? ==> forall id :: id in users ==> users[id].email != e
    {
      var rest := users.Keys;
      while rest != {}
        invariant rest <= users.Keys
        invariant forall id :: id in users && id !in rest ==> users[id].email != e
        decreases rest
      {
        var id :| id in rest;
        if users[id].email == e {
          return Some(id);
        }
        rest := rest - {id};
      }
      return None;
    }

    /** `findByIdAndUpdate(id, { $inc: { c: d } })`. */
    method IncCounter(id: UserId, c: Counter, d: int)
      modifies this
      ensures Current() == old(Current()).(users := IncUser(old(users), id, c, d))
    {
      if id in users {
        users := users[id := users[id].Inc(c, d)];
      }
    }

    /** A fresh ObjectId. */
    method NewId() returns (id: nat)
      modifies this
      ensures id == old(nextId) && Current() == old(Current()).(nextId := id + 1)
    {
      id := nextId;
      nextId := nextId + 1;
    }
  }

  /** The lookup `findOne` performs agrees with Owner on a valid store. */
  lemma FoundIsOwner(s: State, e: string, r: Option<UserId>)
    requires EmailsUnique(s.users)
    requires r.Some? ==> r.value in s.users && s.users[r.value].email == e
    requires r.None? ==> forall id :: id in s.users ==> s.users[id].email != e
    ensures r == Owner(s.users, e)
  {
    if r.Some? {
      OwnerUnique(s.users, e, r.value);
    }
  }
}
