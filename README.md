# Skills-Gap Analyzer: a Dafny model of the backend core

The backend of the Skills-Gap Analyzer answers `GET /api/user/:id/analyze`
with a report built by `analyzeSkillsGap`:

1. **Tally.** Every required skill of every job posting is counted by skill
   name. The table entry for a name holds the count and the skill object seen
   first under that name. Module `Tally`, file `tally.dfy`. The two nested
   `forEach` loops become the method `CountRequiredSkills`, whose inner loop is
   `CountPostingSkills`. They are proved against the specification function
   `TallyValues`. The table itself is a `CountTable`, standing for a JavaScript
   object: a map of own properties plus the order in which the keys were
   created, which is what `Object.values` lists.
2. **Rank.** The table values are sorted by descending count and the first ten
   are kept (`TrendingLimit`). Module `Rank`, file `rank.dfy`.
   `Array.prototype.sort` is stable, so the model uses a stable insertion
   sort. `StableSortUnique` proves that a stable descending sort has only one
   possible result, so the choice of sorting algorithm does not matter.
3. **Gap.** The gap is the trending entries whose name is not among the user's
   skill names, in their trending order. Module `Gap`, file `gap.dfy`.
4. **Roadmap.** Each gap entry gets one step: its skill and the text
   `Consider taking a course in <name>.`. Module `Gap`.

`Analysis.AnalyzeSkillsGap` (file `analysis.dfy`) chains the four stages.
The same file has the lemmas that span stages: stable ties in
first-occurrence order, and distinct trending names.

The signup and login handlers are modelled as pure decision functions over a
user store, in module `Auth` (file `auth.dfy`). The store is a map from email
to user. Password hashing and comparison are function parameters.

The two store reads at the start of `analyzeSkillsGap` become its inputs: the
user's skills and the job postings with their required skills. Every
operation is a function of those sequences, so the same rows in the same
order give the same report. The row order matters: it decides the order of
tied entries and which equal-count entries survive the cut at ten.

## Model

| member | source | states |
|---|---|---|
| `Tally.FirstIndex` | backend/index.js:29-31 | the position where a name is first required: it carries the name and no earlier position does |
| `Tally.DistinctNames` | backend/index.js:29-30 | the table keys: a name is a key exactly when some posting requires it, and no key repeats |
| `Tally.HasNameAt` | backend/index.js:28-29 | a name counts as required exactly when some (posting, required skill) pair carries it |
| `Tally.CountPositive` | backend/index.js:29-32 | a name's count is positive exactly when the name is required somewhere, so every entry's count is at least 1 |
| `Tally.TallyTotal` | backend/index.js:27-34 | the counts add up to the total number of required-skill entries across all postings |
| `Tally.TallyValuesAt` | backend/index.js:27-36 | value i is the entry for the i-th distinct name: its count is the number of pairs carrying that name, at least 1, and its skill is the object from the name's first occurrence, never a later one |
| `Tally.TallyNamesDistinct` | backend/index.js:29-31 | no two table values share a skill name |
| `Tally.DistinctNamesInFirstOccurrenceOrder` | backend/index.js:30-36 | Object.values lists the entries in order of each name's first occurrence |
| `Tally.Flatten` | backend/index.js:27-28 | the visiting order of the two `forEach` loops: postings in order, each posting's requirements in order; `FlattenMembers` states that a skill is visited exactly when some posting requires it |
| `Tally.FlattenMembers` | backend/index.js:27-28 | a skill is visited by the loops exactly when some (posting, required skill) pair carries it |
| `Tally.ObjectValues` | backend/index.js:36 | Object.values of a well-formed table has exactly as many values as the table has own keys, listed in key-creation order |
| `Tally.ObjectValuesOwnKeys` | backend/index.js:36 | every own key's value appears in Object.values, at the position where that key was created |
| `Tally.ValuesMatch` | backend/index.js:36 | Object.values of a table that holds the tally of the required skills is exactly `TallyValues` of those skills |
| `Tally.CountRequiredSkills` | backend/index.js:25-34 | the nested loops leave a table whose keys, key order, counts and first-seen skill objects are exactly the tally of all required skills, and whose values are `TallyValues` |
| `Tally.CountPostingSkills` | backend/index.js:28-33 | the inner loop extends a correct table over the skills seen so far to a correct table over those skills plus one posting's requirements |
| `Tally.CountSkill` | backend/index.js:29-32 | the inner loop body (create `{count: 0, skill}` when the name has no own entry, then `count++`) turns a correct table over the skills seen so far into a correct table over those skills plus `rs` |
| `Tally.Record` | backend/index.js:29-32 | one iteration keeps the table correct: a new name is appended with `{count: 1, skill}`; a known name keeps its skill object and place, and only its count goes up |
| `Tally.TallyAsWritten` | backend/index.js:25-32 | the code as written, where the truthiness lookup also sees inherited properties, never creates an entry under an Object.prototype property name |
| `Tally.AsWrittenAgreesOnOrdinaryNames` | backend/index.js:25-32 | when no required name is an inherited property name, the code as written computes exactly the tally |
| `Tally.AsWrittenDropsInheritedName` | backend/index.js:25-36 | with one skill named "toString", the code as written lists no entry, while the intended tally has an entry with count 1 |
| `Rank.Insert` | backend/index.js:37 | inserting an entry into a list permutes that list plus the entry |
| `Rank.InsertDescending` | backend/index.js:37 | inserting an entry into a list with non-increasing counts keeps the counts non-increasing |
| `Rank.SortByCount` | backend/index.js:37 | the sorted values are a permutation of the input, with non-increasing counts |
| `Rank.InsertWithCount` | backend/index.js:37 | insertion puts the new entry ahead of the entries with equal count and leaves every other count's subsequence unchanged |
| `Rank.SortStable` | backend/index.js:37 | for each count, the entries with that count keep their input order: the sort is stable |
| `Rank.StableSortUnique` | backend/index.js:37 | two non-increasing lists with the same subsequence for every count are equal, so every stable sort with comparator `b.count - a.count` gives the same result |
| `Rank.SortByCountSpec` | backend/index.js:37 | the sorted list is a stable non-increasing permutation of the input, and it is the only list with those properties |
| `Rank.Trending` | backend/index.js:36-38 | the sort followed by `.slice(0, 10)`; its properties are stated by `TrendingShape`, `TopK` and `TrendingStable` |
| `Rank.TrendingShape` | backend/index.js:36-38 | the trending list has min(10, number of tallied entries) entries, has non-increasing counts, and is a sub-multiset of the tally |
| `Rank.TopK` | backend/index.js:36-38 | a tallied entry left out of the trending list has a count no greater than every kept entry's count |
| `Rank.TrendingStable` | backend/index.js:36-38 | for each count, the trending entries with that count are a prefix of the tally's entries with that count |
| `Rank.WithCountAt` | backend/index.js:37 | an entry sits in its count's subsequence right after the equal-count entries that precede it |
| `Gap.UserSkillNames` | backend/index.js:24 | one name per user skill, at the same position |
| `Gap.UserSkillNamesMembers` | backend/index.js:24 | a name is in the user's names exactly when one of the user's skills carries it |
| `Gap.SkillsGap` | backend/index.js:40 | the filter never lengthens the trending list; `GapMembers` and `GapSubsequence` state that it keeps, in order, exactly the entries whose name the user lacks |
| `Gap.GapMembers` | backend/index.js:40 | an entry is in the gap exactly when it is trending and the user lacks its name |
| `Gap.GapSubsequence` | backend/index.js:40 | the gap reads the trending list at increasing positions, and those positions are exactly the ones whose name the user lacks |
| `Gap.GapEmpty` | backend/index.js:40 | the gap is empty exactly when the user holds every trending name |
| `Gap.Roadmap` | backend/index.js:46-49 | the roadmap is as long as the gap; step i has the skill of gap entry i and the text "Consider taking a course in " + name + "." |
| `Gap.SuggestionFor` | backend/index.js:48 | the suggestion text for a name; `Roadmap` states that every step carries it and `SuggestionInjective` that different names get different texts |
| `Gap.SuggestionInjective` | backend/index.js:48 | different skill names get different suggestion texts |
| `Analysis.AnalyzeSkillsGap` | backend/index.js:13-51 | the report: the user's skills unchanged, the top ten of the tally, the gap and the roadmap; min(10, distinct names) trending entries with non-increasing counts; the gap holds exactly the trending entries that no user skill names; the roadmap is as long as the gap |
| `Analysis.TrendingEntry` | backend/index.js:27-38 | every trending entry has a count equal to the number of requirements naming its skill, at least 1, and the skill object of that name's first requirement |
| `Analysis.TrendingNamesDistinct` | backend/index.js:29-38 | no skill name appears twice in the trending list |
| `Analysis.TiesInFirstOccurrenceOrder` | backend/index.js:27-38 | trending entries with equal counts appear in the order in which their names were first required |
| `Auth.Falsy` | backend/index.js:57 | `!field` for a string field (also at line 89): missing or empty; `Signup` and `Login` state that a falsy email or password gives 400 and nothing else does |
| `Auth.WithoutPassword` | backend/index.js:77 | the rest of the user after dropping `password` (also at line 104); `Signup` and `Login` state that the success body is the stored user through it |
| `Auth.Signup` | backend/index.js:54-78 | missing or empty email or password gives 400 and touches nothing; a known email gives 409 and leaves the store unchanged; otherwise 201, the store gains the user with the hashed password, and the response is that user without its password; only a 201 changes the store |
| `Auth.Login` | backend/index.js:86-105 | missing or empty email or password gives 400; an unknown email gives 404; a failed compare gives 401; 200 exactly when the email is known and the compare succeeds, and then the body is the stored user without its password |
| `Auth.SignupThenLogin` | backend/index.js:62-105 | after a successful signup, logging in with the same credentials returns signup's user (given that compare accepts a password against its own hash), and a second signup with that email gets 409 |
| `Auth.SignupKeepsStoreConsistent` | backend/index.js:69-75 | signup files the new user under its own email |
| `Auth.LoginReturnsStoredUser` | backend/index.js:94-105 | a response carries a user only when the email is in the store, and then it carries that user's id and email |

## Findings

| source | as written | input that shows it | evidently intended | confidence | as-written member | corrected member |
|---|---|---|---|---|---|---|
| backend/index.js:25-32 | `requiredSkillsCount` is a `{}` literal and is tested with `!requiredSkillsCount[name]`. That lookup also finds properties inherited from Object.prototype. For such a name the test is false, so no own entry is created, and `count++` writes to the inherited function or object instead. | One posting requires a skill named "toString". Object.values lists nothing, so the skill can never be trending or in the gap. | Count every required skill name, for example with a prototype-free table or an own-property test. | not executed | `Tally.AsWrittenDropsInheritedName` | `Tally.CountRequiredSkills` |

The rest of the model uses the corrected table, which holds own keys only.
`Tally.AsWrittenAgreesOnOrdinaryNames` proves that the two versions agree
whenever no required name is an inherited property name.

## Left out

- Prisma calls (`findMany`, `findUnique`, `create`, `createMany`, `count`): this is ORM I/O. Their results are inputs (sequences of skills and postings) or the abstract `Auth.Store` map.
- The `try`/`catch` paths that answer 500 when the store fails: store failures are outside this model.
- bcrypt `hash` and `compare`: a foreign cryptographic library. They are the function parameters `hash` and `compare`, and `SignupThenLogin` takes as a premise that `compare` accepts a password against its own hash.
- Express routing, CORS, JSON middleware, `app.listen` and `seedDatabase`: server plumbing.
- `GET /api/skills`, `GET /api/user/:id` and `POST /api/user/:id/skills`: each is a single store call. The duplicate-skill error comes from a uniqueness constraint in the database schema, which is not in the source.
- The React front end: UI state, `fetch`, `localStorage` and effects.
- Object.values ordering: JavaScript lists integer-like keys such as "123" first, in numeric order, before other keys. The model assumes no skill name is a canonical array-index string, so insertion order holds.
- The order of the store reads: `findMany` has no `orderBy`, so the store does not fix the order of postings or of their required skills. The model takes that order as part of its input and does not say which order the store returns.
- Counts are unbounded naturals. JavaScript numbers stay exact far beyond any realistic number of postings.
- Auth.Signup: the 400 check covers a missing or empty string field. Non-string JSON values such as `0`, `false` or `null` are not modelled.
- Auth.Login: the same restriction on the 400 check applies.
- Auth.Signup: only the effect of `user.create` on the store is modelled, not the id generation, which is a parameter here.
