# A verified model of the swe2 Q&A backend

swe2 is a question-and-answer site for students. Its Express/Mongoose backend keeps three
collections: users, questions and answers. This project models the core of that backend in Dafny:

- **The vote ledger.** Questions and answers each hold two arrays of voter ids, `upvotes` and
  `downvotes`. The two documents change them with two different `addVote` algorithms:
  - Question: filter the voter out of both arrays, then push the voter onto one array.
  - Answer: a guarded push, then a splice of the voter's first occurrence from the other array.

  The model proves what each algorithm does to the arrays. It shows that both keep the ledger
  invariant: no id twice in one array, and no id in both. It also shows that, under that invariant,
  the two algorithms agree on who voted what.
- **The User document.** The model covers:
  - the `trim`/`lowercase` setters on `email`;
  - the institutional address rule `^[a-zA-Z]+(\.[a-zA-Z]+)?[0-9]{4}@vitstudent\.ac\.in$`, as a
    hand-written recognizer proved equal to the regular language;
  - the defaults: unverified, with every counter at 0;
  - `generateOTP`: a six-digit code from 100000 to 999999 that expires ten minutes later.
- **The account routes**: register, verify-email, login and resend-otp. Each is the same chain of
  validators and early-return checks over the user that `findOne({ email })` finds.
- **The content routes**:
  - on questions: get one, create, update, delete, comment and vote;
  - on answers: create, update, delete, comment, vote and accept.

  For each route the model gives the exact counter deltas: `questionsAsked`, `questionsAnswered`
  and `reputation`. It proves that a refused request changes nothing, and that only the author may
  edit or delete. It also states what the route does not check. For example, accepting the same
  answer twice pays its author 30.

Each route has three parts:
- a specification function on the store's value (`Db.State`), giving the new store and the reply;
- a method on the store object (`Db.Store`), written as the handler does it: load the document
  into a `QuestionDoc`, `AnswerDoc` or `UserDoc`, change its fields in place, and save it back.
  The method is proved equal to the specification function and to keep the store invariant;
- lemmas that state what the route promises.

Things outside the model are parameters:
- the `isEmail()` verdict;
- `Date.now()`, in milliseconds;
- the random draw `Math.floor(Math.random() * 900000)`;
- the result of `sendOTPEmail`;
- the requester id `me` that the auth middleware supplies.

## Model

| member | source | states |
|---|---|---|
| Text.TrimShape | backend/models/User.js:8 | a trimmed string is no longer than the input and neither starts nor ends with whitespace |
| Text.TrimBlank | backend/routes/questions.js:47-48 | `trim().notEmpty()` fails exactly when the input is all whitespace |
| Text.TrimIdempotent | backend/models/Question.js:7 | trimming an already trimmed value changes nothing, so the schema's trim after the validator's is harmless |
| Text.TrimEach | backend/models/Question.js:18-23 | the stored tags are the given tags, each trimmed, same number and order |
| Text.TrimEachIdempotent | backend/models/Question.js:18-23 | trimming the stored tags again changes nothing, so re-saving a question leaves its tags as they are |
| Text.LowerChar | backend/models/User.js:15 | lower-casing a character turns 'A'..'Z' and the Kelvin sign into ASCII letters, keeps whitespace and leaves every other character as it is |
| Text.ToLowerChars | backend/models/User.js:15 | lower-casing maps every character on its own and leaves no character that lower-cases to ASCII |
| Text.ToLowerOfLower | backend/models/User.js:15 | lower-casing a string that holds no character lower-casing to ASCII changes nothing |
| Text.DecimalRoundTrip | backend/models/User.js:74 | the decimal string of a number reads back as that number |
| Text.DecimalLength | backend/models/User.js:74 | a positive number with k digits (10^(k-1) <= n < 10^k) prints as exactly k characters |
| EmailFormat.NormalizeEmail | backend/models/User.js:14-15 | the email the schema stores: the submitted one trimmed, then lower-cased (see NormalizedShape, NormalizeIdempotent) |
| EmailFormat.NormalizedShape | backend/models/User.js:14-15 | a stored email has no surrounding whitespace, no upper-case ASCII letter and no Kelvin sign |
| EmailFormat.KelvinSignFolds | backend/models/User.js:14-15 | an address whose first letter is the Kelvin sign is stored and looked up as the same address with an ASCII 'k' |
| EmailFormat.NormalizeIdempotent | backend/models/User.js:14-15 | storing an already stored email leaves it unchanged |
| EmailFormat.IsStudentEmail | backend/models/User.js:18 | the regular expression's test as a left-to-right scan; RecognizerMatchesPattern proves it accepts exactly the pattern's language |
| EmailFormat.RecognizerMatchesPattern | backend/models/User.js:18 | the recognizer accepts a string iff it is letters, optionally '.' and letters, exactly four digits, then "@vitstudent.ac.in", with nothing after |
| EmailFormat.RecognizerSound | backend/models/User.js:18 | every accepted string splits into the parts of the pattern |
| EmailFormat.RecognizerComplete | backend/models/User.js:18 | every string built from the parts of the pattern is accepted |
| EmailFormat.SecondDotRejected | backend/models/User.js:18 | an address with a second '.'-segment is refused |
| EmailFormat.YearMustHaveFourDigits | backend/models/User.js:18 | for every name, with or without its '.'-segment, a digit run of any length other than four before the domain is refused |
| EmailFormat.AcceptedEndsWithDomain | backend/models/User.js:18 | every accepted address ends with the institutional domain |
| EmailFormat.ExampleAccepted | backend/models/User.js:20 | the documented format name.lastnameYYYY@vitstudent.ac.in is accepted |
| EmailFormat.OtherDomainRejected | backend/models/User.js:18 | for every name, segment and four-digit year, any text after the year other than exactly the institutional domain (another domain, or the domain followed by more) is refused |
| Replies.VoteTypeErrors | backend/routes/questions.js:196-198 | the vote validator passes iff voteType is "upvote" or "downvote" |
| UserModel.User.Inc | backend/routes/questions.js:70-72 | `$inc` moves the named counter by exactly d and changes nothing else about the user |
| UserModel.NewUser | backend/models/User.js:28-47 | a new user has the trimmed name and stored-form email, is unverified, has no OTP and all counters 0 |
| UserModel.OtpCode | backend/models/User.js:74 | the code is six decimal digits, reads back as 100000 + draw, so lies in 100000..999999 |
| UserModel.OtpCodeInjective | backend/models/User.js:74 | different draws give different codes |
| UserModel.UserDoc.New | backend/models/User.js:4-47 | a new User document holds exactly the record NewUser describes |
| UserModel.UserDoc.GenerateOtp | backend/models/User.js:73-80 | returns the code it stores, replaces any earlier OTP, expires exactly now + 600000 ms, changes no other field |
| VoteLists.Votes.VoteCount | backend/models/Question.js:80-82 | `voteCount`: upvotes minus downvotes, entries counted as stored (see VoteCountIsNetVoters) |
| VoteLists.Votes.HasVoted | backend/models/Question.js:85-87 | `hasVoted`: the id is in either array |
| VoteLists.ConsistentMeans | backend/models/Question.js:93-104 | the count-based ledger invariant means: no repeats in either array and no id in both |
| VoteLists.VoteCountIsNetVoters | backend/models/Question.js:80-82 | under the invariant `voteCount` is distinct upvoters minus distinct downvoters, and may be negative |
| QuestionModel.NewQuestion | backend/models/Question.js:3-71 | a new question has the trimmed title and tags, no votes, answers or comments, and 0 views |
| QuestionModel.QuestionDoc.New | backend/models/Question.js:3-71 | a new Question document holds exactly the record NewQuestion describes |
| QuestionModel.QuestionVote | backend/models/Question.js:90-105 | Question's addVote on the two arrays: for a real voter, drop u and nulls from both, then push u onto the named array; specified by QuestionVoteOutcome and QuestionVoteKeepsOrder |
| QuestionModel.WithoutVoterCount | backend/models/Question.js:93-98 | the filter keeps every other voter's entries as often as they occur and drops u and nulls |
| QuestionModel.WithoutVoterKeepsOrder | backend/models/Question.js:93-98 | the filter keeps the relative order of the voters it keeps |
| QuestionModel.WithoutVoterLength | backend/models/Question.js:93-98 | the filter removes exactly the occurrences of u and the nulls |
| QuestionModel.FilterVoter | backend/models/Question.js:93-98 | the loop computes the filter |
| QuestionModel.QuestionVoteOutcome | backend/models/Question.js:93-104 | upvote leaves u exactly once in upvotes, as the last entry, and not in downvotes (downvote symmetric), so a repeated vote only moves u to the end; any other type retracts u; other voters' counts stay; no null survives |
| QuestionModel.QuestionVoteKeepsOrder | backend/models/Question.js:93-98 | other voters keep their relative order in both arrays |
| QuestionModel.QuestionVoteIdempotent | backend/models/Question.js:93-102 | casting the same vote twice gives the arrays that casting it once gives |
| QuestionModel.QuestionVoteKeepsConsistent | backend/models/Question.js:93-104 | addVote keeps the ledger invariant |
| QuestionModel.QuestionVoteCountDelta | backend/models/Question.js:80-105 | how voteCount moves: +1 for a new upvoter, +2 for a former downvoter, 0 for a repeat; downvote mirrored |
| QuestionModel.QuestionDoc.AddVote | backend/models/Question.js:90-105 | the in-place update computes QuestionVote, does nothing for a falsy voter, and changes no other field |
| AnswerModel.NewAnswer | backend/models/Answer.js:26-29 | a new answer is not accepted, has empty vote arrays and no comments |
| AnswerModel.AnswerDoc.New | backend/models/Answer.js:3-53 | a new Answer document holds exactly the record NewAnswer describes |
| AnswerModel.AnswerVote | backend/models/Answer.js:72-90 | Answer's addVote on the two arrays: push u if absent from the named array, then splice its first occurrence from the other; specified by AnswerVoteOutcome and AnswerVoteCasts |
| AnswerModel.IndexOf | backend/models/Answer.js:76 | `indexOf` returns the first slot holding x, or -1 exactly when x is absent |
| AnswerModel.SpliceIsRemoveFirst | backend/models/Answer.js:76-79 | splicing out the slot indexOf found removes the first occurrence |
| AnswerModel.RemoveFirstCount | backend/models/Answer.js:76-79 | the splice removes one x if present and leaves every other entry's count |
| AnswerModel.AnswerVoteOutcome | backend/models/Answer.js:72-90 | a repeat vote changes nothing; otherwise u is appended and one occurrence leaves the other array; any other vote type changes nothing |
| AnswerModel.AnswerVoteCasts | backend/models/Answer.js:73-88 | under the invariant an upvote leaves u once in upvotes and not in downvotes; downvote symmetric |
| AnswerModel.AnswerVoteKeepsConsistent | backend/models/Answer.js:72-90 | addVote keeps the ledger invariant and adds no null for a real voter |
| AnswerModel.PushRemoveKeepsConsistent | backend/models/Answer.js:74-79 | pushing an absent voter onto one array and splicing its first occurrence from the other keeps every id at most once across both and adds no null |
| AnswerModel.AnswerVoteCountDelta | backend/models/Answer.js:62-90 | how voteCount moves: 0 for a repeat, 2 for a switch, 1 for a new voter |
| AnswerModel.AnswerUpThenDown | backend/models/Answer.js:72-90 | upvote then downvote leaves u only in downvotes and the count drops by 2 |
| AnswerModel.AnswerDoc.AddVote | backend/models/Answer.js:72-90 | the in-place push and splice compute AnswerVote and change no other field |
| VoteAgreement.VotesAgreeOnIds | backend/models/Answer.js:72-90 | under the invariant both algorithms count every id the same in each array, so membership and hasVoted agree |
| VoteAgreement.VoteCountsAgree | backend/models/Answer.js:62-64 | without nulls both algorithms give the same voteCount |
| VoteAgreement.OtherVoteTypesDisagree | backend/models/Answer.js:72-90 | for every ballot, every voter who has voted and every vote type other than upvote and downvote, Question retracts the vote while Answer leaves the arrays exactly as they were |
| Db.Owner | backend/routes/auth.js:28 | `findOne({ email })` finds a user iff one has that email, and the user found has it |
| Db.OwnerUnique | backend/models/User.js:13 | under the unique index the user found is the one stored with that email |
| Db.Store.FindByEmail | backend/routes/auth.js:28 | the scan returns a user with the email, or none when no user has it |
| Db.FoundIsOwner | backend/routes/auth.js:28 | the scan agrees with Owner |
| Db.IncUser | backend/routes/questions.js:70-72 | a counter update keeps the set of users |
| Db.IncUserEffect | backend/routes/questions.js:70-72 | only the named counter of the named user moves, by d; a missing user means no change |
| Db.IncUserCancels | backend/routes/questions.js:146-148 | +d then -d on the same counter gives the users back |
| Db.IncUserKeepsValid | backend/routes/answers.js:206-208 | counter updates keep the store invariant |
| Db.AddUserKeepsValid | backend/models/User.js:13 | a user with a new email under a fresh id keeps the unique index |
| Db.Store.IncCounter | backend/routes/questions.js:70-72 | the store changes exactly as IncUser says |
| Db.Store.NewId | backend/routes/questions.js:60-67 | a fresh id is the next one drawn and nothing else changes |
| AuthRoutes.RegisterErrors | backend/routes/auth.js:12-16 | register's validators pass iff the name is not blank, the email is valid and the password has at least 6 characters |
| AuthRoutes.Registrant | backend/routes/auth.js:34-41 | the user built by register is unverified, all counters 0, and holds OTP(draw) expiring at now + 10 min |
| AuthRoutes.Register | backend/routes/auth.js:18-51 | any refusal leaves the store unchanged; success touches no question or answer |
| AuthRoutes.RegisterOutcome | backend/routes/auth.js:34-47 | success iff validators pass, email free and institutional; then exactly one new unverified user with a pending six-digit OTP, which the reply returns |
| AuthRoutes.RegisterExistingRefused | backend/routes/auth.js:28-31 | a submitted email whose stored form (trimmed, then lower-cased) is already on file is refused with "User already exists" and nothing changes |
| AuthRoutes.RegisterAddsOneUser | backend/routes/auth.js:34-42 | success stores one user with an email nobody had, under the next id |
| AuthRoutes.RegisterKeepsValid | backend/routes/auth.js:34-42 | register keeps the store invariant |
| AuthRoutes.RegisterSaves | backend/routes/auth.js:42-47 | the success branch, stated on its own |
| AuthRoutes.RegisterRejects | backend/routes/auth.js:48-50 | a stored email that breaks the institutional rule is a 500 with no change |
| AuthRoutes.SaveNewUser | backend/routes/auth.js:34-47 | building, generating the OTP and saving adds exactly the Registrant, or changes nothing when the rule refuses |
| AuthRoutes.PostRegister | backend/routes/auth.js:18-51 | the handler computes Register and keeps the store invariant |
| AuthRoutes.VerifyErrors | backend/routes/auth.js:58-59 | verify's validators pass iff the email is valid and the OTP has six characters |
| AuthRoutes.VerifyEmail | backend/routes/auth.js:61-108 | every failure leaves the store unchanged; nothing but users changes |
| AuthRoutes.VerifyEmailOutcome | backend/routes/auth.js:70-91 | checks in order: not found, no OTP, mismatch, expired; success iff pending, equal and not expired, and then that user becomes exactly the old record with isVerified true and no OTP, and no other user changes |
| AuthRoutes.VerifyExpiryIsStrict | backend/routes/auth.js:85 | the code verifies at exactly expiresAt and is refused as expired one millisecond later |
| AuthRoutes.VerifyEmailKeepsValid | backend/routes/auth.js:89-91 | verify keeps the store invariant |
| AuthRoutes.VerifyTwice | backend/routes/auth.js:75-91 | after a successful verify the same request fails with "No OTP found" and changes nothing |
| AuthRoutes.PostVerifyEmail | backend/routes/auth.js:61-108 | the handler computes VerifyEmail and keeps the store invariant |
| AuthRoutes.LoginErrors | backend/routes/auth.js:115-116 | login's validators pass iff the email is valid and the password is not empty |
| AuthRoutes.Login | backend/routes/auth.js:118-158 | a login succeeds only for a verified user whose password matches |
| AuthRoutes.LoginOutcome | backend/routes/auth.js:127-141 | unknown email and wrong password both give "Invalid credentials" 400; right password but unverified gives 401; each iff |
| AuthRoutes.PostLogin | backend/routes/auth.js:118-158 | the handler computes Login and changes nothing |
| AuthRoutes.ResendOtp | backend/routes/auth.js:165-198 | any refusal, and a failed delivery, leave the store unchanged |
| AuthRoutes.ResendOtpOutcome | backend/routes/auth.js:166-194 | checks in order: invalid email (400), unknown user (400 "User not found"), already verified (400 "Email is already verified"), failed delivery (500), each with no change; success iff all pass, and then that user's record differs only by a fresh OTP(draw) expiring at now + 10 min and no other user changes |
| AuthRoutes.ResendReplacesOtp | backend/routes/auth.js:183-192 | after a resend the new code verifies until it expires and any other code, the old one included, is invalid |
| AuthRoutes.ResendOtpKeepsValid | backend/routes/auth.js:174-194 | resend keeps the store invariant |
| AuthRoutes.PostResendOtp | backend/routes/auth.js:165-198 | the handler computes ResendOtp and keeps the store invariant |
| AuthRoutes.RegisteredUser | backend/routes/auth.js:34-47 | after registering, the email belongs to the new user alone, who holds the code the reply carries |
| AuthRoutes.PendingUserVerifies | backend/routes/auth.js:70-141 | an unverified user cannot log in; the right code in time verifies and signs in; login then succeeds |
| AuthRoutes.SignUpFlow | backend/routes/auth.js:9-159 | register, failed login, verify with the returned code, successful login, end to end |
| QuestionRoutes.View | backend/routes/questions.js:21-40 | a view changes no user, answer or id, and no question is added or removed |
| QuestionRoutes.ViewCounts | backend/routes/questions.js:28-34 | unknown id is a 404 with no change; otherwise views goes up by exactly 1 and nothing else changes |
| QuestionRoutes.ViewTwice | backend/routes/questions.js:32-34 | two reads count two views and leave the votes as they were |
| QuestionRoutes.ViewKeepsValid | backend/routes/questions.js:32-34 | a view keeps the store invariant |
| QuestionRoutes.HandleView | backend/routes/questions.js:21-40 | the handler computes View and keeps the store invariant |
| QuestionRoutes.CreateErrors | backend/routes/questions.js:47-49 | create's validators pass iff title and content are not blank and tags, if given, are an array |
| QuestionRoutes.Create | backend/routes/questions.js:43-79 | a refused create changes nothing; no answer changes |
| QuestionRoutes.CreateOutcome | backend/routes/questions.js:47-72 | success iff validators pass; one new question by me with non-blank trimmed title and content, the given tags trimmed (none by default), empty vote arrays, no answers, comments or views; me's record differs only by questionsAsked +1, no other user changes |
| QuestionRoutes.CreateKeepsValid | backend/routes/questions.js:60-72 | create keeps the store invariant |
| QuestionRoutes.HandleCreate | backend/routes/questions.js:43-79 | the handler computes Create and keeps the store invariant |
| QuestionRoutes.UpdateErrors | backend/routes/questions.js:86-96 | update's validators pass iff a given title or content is not blank and tags, if given, are an array |
| QuestionRoutes.Update | backend/routes/questions.js:82-127 | a refused update changes nothing; only questions change, and none is added or removed |
| QuestionRoutes.UpdateOutcome | backend/routes/questions.js:105-121 | success iff valid, found and authored by me; non-author gets 403; a supplied title or content replaces the stored one, trimmed, and a supplied tags array (even empty) replaces the stored tags, each trimmed; absent fields stay; votes, answers, comments, views stay |
| QuestionRoutes.UpdateIdempotent | backend/routes/questions.js:116-121 | the same update twice leaves the store as once |
| QuestionRoutes.UpdateKeepsValid | backend/routes/questions.js:116-121 | update keeps the store invariant |
| QuestionRoutes.HandleUpdate | backend/routes/questions.js:82-127 | the handler computes Update and keeps the store invariant |
| QuestionRoutes.Delete | backend/routes/questions.js:130-154 | a refused delete changes nothing; answers are never touched |
| QuestionRoutes.DeleteOutcome | backend/routes/questions.js:137-148 | success iff found and authored by me; non-author gets 403; exactly that question goes, its answers stay and point at no question; the same users exist, me's record differs only by questionsAsked -1, no other user changes |
| QuestionRoutes.DeleteKeepsValid | backend/routes/questions.js:143-148 | delete keeps the store invariant |
| QuestionRoutes.CreateThenDelete | backend/routes/questions.js:60-148 | asking then deleting gives back the store, except one id used up |
| QuestionRoutes.HandleDelete | backend/routes/questions.js:130-154 | the handler computes Delete and keeps the store invariant |
| QuestionRoutes.AddComment | backend/routes/questions.js:157-189 | a refused comment changes nothing; only questions change |
| QuestionRoutes.AddCommentOutcome | backend/routes/questions.js:173-181 | success iff non-blank and found; the appended comment is exactly the trimmed text by me, earlier comments and everything else stay |
| QuestionRoutes.AddCommentKeepsValid | backend/routes/questions.js:178-183 | commenting keeps the store invariant |
| QuestionRoutes.HandleComment | backend/routes/questions.js:157-189 | the handler computes AddComment and keeps the store invariant |
| QuestionRoutes.CastVote | backend/routes/questions.js:192-225 | a refused vote changes nothing; only questions change |
| QuestionRoutes.CastVoteOutcome | backend/routes/questions.js:195-213 | an invalid voteType is a 400 "Invalid vote type" and a missing question a 404, both with no change; otherwise the question's arrays become exactly what Question's addVote gives (so other voters keep their entries and order), me ends once in the named array and not the other, voteCount moves by 0, 1 or 2, the reply is the saved question, nothing else changes |
| QuestionRoutes.CastVoteKeepsValid | backend/routes/questions.js:212-215 | voting keeps the store invariant |
| QuestionRoutes.HandleVote | backend/routes/questions.js:192-225 | the handler computes CastVote and keeps the store invariant |
| AnswerRoutes.Pull | backend/routes/answers.js:111-113 | `$pull` on the question's answers list; specified by PullMembers, PullKeepsOrder, PullAbsent and PullPushed |
| AnswerRoutes.PullKeepsOrder | backend/routes/answers.js:111-113 | `$pull` keeps the ids it keeps in their order |
| AnswerRoutes.PullMembers | backend/routes/answers.js:111-113 | `$pull` removes every occurrence of the id and keeps every other id |
| AnswerRoutes.PullAbsent | backend/routes/answers.js:111-113 | pulling an absent id changes nothing |
| AnswerRoutes.PullPushed | backend/routes/answers.js:53-113 | pulling the id just pushed gives the array back |
| AnswerRoutes.CreateErrors | backend/routes/answers.js:26-27 | create's validators pass iff content is not blank and a question id is given |
| AnswerRoutes.Create | backend/routes/answers.js:23-66 | a refused create changes nothing |
| AnswerRoutes.CreateOutcome | backend/routes/answers.js:39-59 | missing question is a 404 with no change; otherwise a new unaccepted answer by me with the trimmed content, empty vote arrays and no comments, its id appended to the question's answers; me's record differs only by questionsAnswered +1, nothing else changes |
| AnswerRoutes.CreateKeepsValid | backend/routes/answers.js:44-59 | create keeps the store invariant |
| AnswerRoutes.HandleCreate | backend/routes/answers.js:23-66 | the handler computes Create and keeps the store invariant |
| AnswerRoutes.Update | backend/routes/answers.js:69-96 | a refused update changes nothing; only answers change |
| AnswerRoutes.UpdateOutcome | backend/routes/answers.js:79-89 | success iff non-blank, found and authored by me; non-author gets 403 with no change; only the content changes |
| AnswerRoutes.UpdateIdempotent | backend/routes/answers.js:88-89 | the same update twice leaves the store as once |
| AnswerRoutes.UpdateKeepsValid | backend/routes/answers.js:88-89 | update keeps the store invariant |
| AnswerRoutes.HandleUpdate | backend/routes/answers.js:69-96 | the handler computes Update and keeps the store invariant |
| AnswerRoutes.Delete | backend/routes/answers.js:99-126 | a refused delete changes nothing |
| AnswerRoutes.DeleteOutcome | backend/routes/answers.js:101-120 | success iff found and authored by me; non-author gets 403 with no change; the answer goes, its question lists it no more and keeps the rest in their order; the same users exist, me's record differs only by questionsAnswered -1, no other user changes |
| AnswerRoutes.DeleteKeepsValid | backend/routes/answers.js:110-120 | delete keeps the store invariant |
| AnswerRoutes.CreateThenDelete | backend/routes/answers.js:44-120 | answering then deleting the answer gives back the store, except one id used up |
| AnswerRoutes.HandleDelete | backend/routes/answers.js:99-126 | the handler computes Delete and keeps the store invariant |
| AnswerRoutes.AddComment | backend/routes/answers.js:129-155 | a refused comment changes nothing; only answers change |
| AnswerRoutes.AddCommentOutcome | backend/routes/answers.js:139-147 | success iff non-blank and found; the appended comment is exactly the trimmed text by me, earlier comments and everything else stay |
| AnswerRoutes.AddCommentKeepsValid | backend/routes/answers.js:144-149 | commenting keeps the store invariant |
| AnswerRoutes.HandleComment | backend/routes/answers.js:129-155 | the handler computes AddComment and keeps the store invariant |
| AnswerRoutes.CastVote | backend/routes/answers.js:158-182 | a refused vote changes nothing; only answers change |
| AnswerRoutes.CastVoteOutcome | backend/routes/answers.js:160-174 | an invalid voteType is a 400 "Invalid vote type" and a missing answer a 404, both with no change; otherwise the answer's arrays become exactly what Answer's addVote gives, me ends once in the named array and not the other, voteCount moves by 0, 1 or 2, the reply is the saved answer, nothing else changes |
| AnswerRoutes.CastVoteKeepsValid | backend/routes/answers.js:173-176 | voting keeps the store invariant |
| AnswerRoutes.HandleVote | backend/routes/answers.js:158-182 | the handler computes CastVote and keeps the store invariant |
| AnswerRoutes.Accept | backend/routes/answers.js:185-214 | a refused accept changes nothing; questions never change |
| AnswerRoutes.AcceptOutcome | backend/routes/answers.js:187-208 | 404 for a missing answer or question, 403 unless me asked the question; success sets isAccepted only and adds exactly 15 to the answer author's reputation |
| AnswerRoutes.AcceptTwice | backend/routes/answers.js:201-208 | nothing guards a second accept: it succeeds again and the author gains 30 in all |
| AnswerRoutes.AcceptKeepsValid | backend/routes/answers.js:201-208 | accept keeps the store invariant |
| AnswerRoutes.HandleAccept | backend/routes/answers.js:185-214 | the handler computes Accept and keeps the store invariant |

## Left out

- frontend/ is not part of this model. It is UI and HTTP client code.
- backend/routes/users.js is not part of this model, nor are the list endpoints `GET /questions` and `GET /answers/question/:questionId`. They are read-only queries whose meaning lies in `populate`, `sort`, `limit` and the aggregation pipeline.
- The `populate` calls in get-one and vote change the reply's shape, not the store. Reply bodies are the saved record.
- Password hashing and `comparePassword` are calls into bcrypt. The stored password stands for its hash, and a match is equality.
- JWT signing is left out. A successful verify or login replies with the user's id, name and email; the token is not modelled.
- The `sendOTPEmail` module is not part of this model. Its result is the boolean parameter `emailSent`.
- express-validator's `isEmail()` is the boolean parameter `emailOk`. The 400 body of a failed validation is the list of messages in validator order, without the other fields express-validator adds.
- The auth middleware is not part of this model. The requester id `me` is a parameter.
- `Math.random` and `Date.now` are parameters. The `createdAt`/`updatedAt` timestamps and the pre-save hooks that set them are not modelled.
- Ids are natural numbers. A malformed id, which makes `findById` throw a CastError and the route reply 500, is not modelled. Nor are the other `catch` paths for database failures.
- Each request is one atomic step on an in-memory store. The model does not capture lost updates between concurrent requests: the read-modify-save of `views` and of `addVote`, or two registrations racing past the `findOne` check. It also does not capture a failure part-way through a handler's several writes.
- Lookups by email use the email in stored form, trimmed and lower-cased. The model assumes Mongoose applies the schema's setters to the `findOne({ email })` filter.
- `toLowerCase` is modelled on the characters whose lower case is ASCII: 'A'..'Z' and the Kelvin sign U+212A, which becomes 'k'. Every other character is kept as it is, although JavaScript maps many of them to other characters outside ASCII (U+0130 even to two). An address that still holds such a character is refused by the institutional rule either way, and it matches no stored email when every stored email satisfies the rule. Register enforces the rule, but the model does not carry it as a store invariant.
- `document.remove()` is assumed to delete the document, as in the Mongoose versions that provide it.
- The schema's `required` and `minlength` rules are not kept as store invariants. The validators that run first already guarantee them for every route modelled here. The email rule is the one schema check that can fail after validation, and it is modelled (register's 500).
- AuthRoutes.VerifyEmail: the `!user.otp.expiresAt` part of the no-OTP test is not modelled separately. In the model an OTP always carries its expiry, as `generateOTP` sets both.
- AuthRoutes.Register: the 500 body carries Mongoose's validation error object. The model gives only the rejected value, with `EmailFormat.Rejection` as the error's wording.
- Deleting a question leaves its answers in place, pointing at a question that no longer exists, as the source does. The store invariant does not claim every answer has a question.
