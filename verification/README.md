# Commentary report — a Dafny model

The repository is a small Node.js script (`index.js`). It reads the
comments made on a GitHub repository's issues and reports, per
commenter:

- how many comments they wrote;
- how many characters those comments hold;
- a score.

It prints the commenters as a table ranked by score. It then prints an
acknowledgement list of the commenters' display names, ordered by last
name.

This project models the computational core of that script as pure
Dafny functions and proves what the script promises about them.

- `text.dfy` (`Text`): the JavaScript string operations the script
  relies on.
  - `includes` is modelled as `Contains`.
  - `split(' ')` is modelled as `Split`, with its inverse `Join`.
  - The last piece of a split is `LastPiece`.
  - `<` on strings (code-unit order) is `Less`.
  - `padStart(width, ' ')` is `PadStart`.
- `decimal.dfy` (`Decimal`): `toString()` of a non-negative integer
  (`Render`). Its inverse `Parse` is used to state that a printed cell
  reads back as the number.
- `commentary.dfy` (`Commentary`): the fold over the comment list into a
  per-login tally (`Step`, `Aggregate`).
  - The JavaScript object is modelled as a `Tally`: its keys in
    insertion order, plus a map to their `Stat` records.
  - The fold is related to independent reference definitions:
    - `CountOf` / `BytesOf`: per-login sums over the comment list;
    - `Logins`: the set of authors;
    - `FirstIndex`: the position of a login's first comment.
- `ranking.dfy` (`Ranking`):
  - one record per login in key order (`Gather`);
  - `Score` = comments + ⌊bytes / 1024⌋;
  - the stable descending sort by score (`SortByScore`, an insertion
    sort, matching the stability of `Array.prototype.sort`);
  - `Rank`, which composes the three.
- `table.dfy` (`Table`):
  - the header, the divider and one line per ranked record;
  - the cell widths are 20, 6, 10 and 8;
  - `console.log` hands its arguments to Node's `util.format`, which reads
    the first one as a format string. When that string holds no `%`, the
    arguments are printed separated by single spaces. `Table.Line` is that
    output.
- `acknowledgements.dfy` (`Acknowledgements`):
  - the display name `name || login`;
  - the last-name comparator;
  - the stable sort by last name;
  - the list the script actually prints, and a corrected list (see
    Findings).
- `samples.dfy` (`Samples`): a worked example of three comments, one of
  them a transcript, evaluated end to end.

Integers are unbounded. A JavaScript string is a sequence of UTF-16 code
units, and it is modelled as a `seq<char>` holding one `char` per unit
(`Text.Encode`).

- A Dafny `char` cannot be a surrogate. So unit `u` becomes the char `u`
  when `u < 0xD800`, and the char `u + 0x800` otherwise (`Text.UnitChar`).
- ASCII, and so the space, the `|` and the transcript marker, keep their
  values.
- The encoding keeps length: `|body|` is `comment.body.length`.
- It keeps equality and substring occurrence (`Text.EncodeInjective`,
  `Text.EncodeOccurs`).
- It keeps the order of JavaScript's `<` (`Text.EncodeLess`).
- A body holding U+1F600 is therefore given as the two units D83D and DE00.
  Its length is 2, and it sorts before U+FFFD, as in JavaScript
  (`Samples.SampleAstral`).
- A Dafny literal such as `"\U{1F600}"` is a single `char`. It is not the
  model of that JavaScript string.

The operations themselves (`Commentary.Aggregate`, `Ranking.Gather`,
`Acknowledgements.Collect`, `Table.Row`, `Table.Report`, `Text.Less`)
carry little or no contract of their own. The lemmas in the table below
state what they compute.

Behaviours of the code a reader may not expect:

- A login's entry is created before the transcript test. A user whose
  only comments are transcripts is therefore listed, with zero comments
  and zero bytes (`Commentary.TranscriptAppended`).
- Names are split on the single space character only. Tabs are not
  separators. A trailing space makes the last name empty.
- The table cells are padded on the left (right-aligned), because
  `padStart` pads on the left.
- The tally is a plain object, so it inherits the names of
  `Object.prototype`. These include `constructor`, `toString`, `valueOf`
  and `__proto__` (`Commentary.Inherited`).
  - For a login spelled like one of these names, the test at
    `index.js:105` finds the inherited value rather than `undefined`, so
    no entry is created.
  - The updates at `index.js:114-115` then land on the inherited object.
  - `Object.keys` lists own keys only, so such a user is in neither the
    ranking nor the acknowledgements. The model drops them the same way.

## Model

| member | source | states |
|---|---|---|
| Commentary.Step | index.js:104-116 | handling one comment adds its author to the keys unless the login is an inherited property name, in which case the tally is unchanged, and leaves every other login's record untouched |
| Commentary.AggregateMatches | index.js:102-116 | after the fold the keys are exactly the comment authors other than inherited property names, no key is repeated in the insertion order, and each login's record is (number of its non-transcript comments, total length of their bodies) |
| Commentary.AggregateOrder | index.js:104-110 | the key order is the order of first appearance: a login comes before another exactly when its first comment comes first |
| Commentary.TranscriptAppended | index.js:105-113 | a comment containing "View the transcript" still registers its author (with a zero record if new) but changes no count or byte total |
| Commentary.TranscriptInserted | index.js:111-113 | inserting a transcript comment anywhere in the list only adds its author as a key; every count and byte total stays the same |
| Commentary.ZeroCommentsZeroBytes | index.js:114-115 | a login with zero counted comments has zero bytes, since both fields grow together |
| Commentary.OnlyTranscriptsCountNothing | index.js:111-115 | a login all of whose comments are transcripts has count and bytes zero |
| Commentary.CountOfConcat | index.js:104-116 | counts and byte totals over two concatenated comment lists add up |
| Commentary.InheritedIgnored | index.js:105-115 | a comment by a login spelled like an inherited property name leaves the whole tally as it was |
| Commentary.InheritedNeverKeys | index.js:104-120 | an author with an inherited property name is never a key of the tally, and every other author is |
| Commentary.FirstIndexBound | index.js:105-110 | a login has a first comment exactly when it is an author, and that comment is its own |
| Text.EncodeOccurs | index.js:111 | a run of code units occurs at a position exactly when its encoding occurs there in the encoding of the whole text |
| Text.ContainsIff | index.js:111 | the left-to-right scan for a substring succeeds exactly when the substring occurs at some position |
| Ranking.Score | index.js:125 | the score is the comment count plus the whole number of 1024-unit blocks of comment text, bounded on both sides |
| Ranking.Gather | index.js:119-127 | one record per key of the tally |
| Ranking.GatherFacts | index.js:119-127 | the gathered records follow key order, carry distinct users, copy each user's counts and carry the score computed from them |
| Ranking.InsertByScore | index.js:130-132 | inserting a record into a list grows it by one, keeps every element, and puts the record first or keeps the old head |
| Ranking.InsertSorted | index.js:130-132 | inserting into a list ordered by descending score keeps it ordered |
| Ranking.SortByScore | index.js:130-132 | the sort with comparator `b.score - a.score` is a permutation of its input in non-increasing score order |
| Ranking.SortedByScoreAllPairs | index.js:130-132 | in the sorted list every earlier record scores at least as much as every later one |
| Ranking.SortStable | index.js:130-132 | the sort is stable: records with equal scores keep their input order |
| Ranking.SortDistinct | index.js:130-132 | sorting records with distinct users keeps the users distinct |
| Ranking.Rank | index.js:119-132 | the ranking has one record per tally key and is in descending score order |
| Ranking.RankCoversLogins | index.js:119-132 | every commenter appears in the ranking exactly once, and no one else does |
| Ranking.RankRecords | index.js:121-126 | every ranked record holds its user's number of counted comments and their total length, its score is derived from them, and the score is zero exactly when the count is |
| Ranking.RankTies | index.js:120-132 | users with equal scores appear in the order of their first comments |
| Ranking.RankIsPermutation | index.js:119-132 | the ranking is a rearrangement of the gathered records |
| Text.PadStart | index.js:134-145 | the padded cell is as wide as the width or the text, whichever is larger, ends with the text, and begins with spaces only |
| Text.PadStartCompose | index.js:134-145 | padding to one width and then to a wider one equals padding to the wider width |
| Text.TrimPadStart | index.js:142-145 | stripping the leading spaces of a padded cell recovers the text when the text does not start with a space |
| Decimal.Render | index.js:143-145 | `toString()` of a count is a canonical digit string: non-empty, digits only, no leading zero |
| Decimal.ParseRender | index.js:143-145 | reading a rendered count back gives the count |
| Decimal.RenderParse | index.js:143-145 | a canonical digit string is the rendering of its own value |
| Decimal.RenderWidth | index.js:143-145 | a count fits a cell of width w exactly when it is below ten to the w |
| Table.LineLayout | index.js:134-146 | when the first cell holds no `%`, the printed line of four full-width cells is 55 characters long with each cell at its fixed column and the separators between them |
| Table.HeaderLayout | index.js:134-138 | the header line has the column separators at the fixed positions |
| Table.RowLayout | index.js:140-146 | a ranked record whose user holds no `%` and whose values fit their columns prints as a line with separators at the header's positions, the user right-aligned in the first cell, and each number cell reading back as its number |
| Table.ReportLayout | index.js:134-146 | the printed table is the header, the divider and then one line per ranked record in ranking order; the header and every line of a record that fits its columns (user without `%`, values within their widths) have the fixed layout, show the record's user right-aligned, and read back as its numbers |
| Table.CellReadsBack | index.js:143-145 | any number cell, trimmed of its padding, is the digits of the number |
| Text.Split | index.js:166-167 | splitting never yields an empty list and no piece holds the separator |
| Text.JoinSplit | index.js:166-167 | joining the pieces of a split with the separator rebuilds the string |
| Text.SplitJoin | index.js:166-167 | splitting a join of separator-free pieces gives the pieces back |
| Text.LastPieceIsSuffix | index.js:166-169 | the last token is the longest space-free suffix of the name |
| Text.Encode | index.js:115 | the model of a JavaScript string has one char per code unit, so its length is the string's `length` |
| Text.DecodeEncode | index.js:115 | the code units can be read back from the model, so the model loses nothing |
| Text.EncodeDecode | index.js:115 | every string of unit chars is the model of exactly its decoded code units |
| Text.EncodeInjective | index.js:111 | two strings have the same model exactly when they are equal |
| Text.UnitCharOrder | index.js:170-171 | the char of a code unit orders as the unit does, and distinct units get distinct chars |
| Text.EncodeLess | index.js:170-171 | `<` on the models agrees with JavaScript's `<` on the code units |
| Text.LessTrichotomy | index.js:170-172 | string `<` is a strict order: exactly one of less, equal, greater holds |
| Text.LessTransitive | index.js:170-171 | string `<` is transitive |
| Acknowledgements.DisplayName | index.js:162 | a non-empty profile name is used, and a missing or empty name falls back to the login |
| Acknowledgements.Compare | index.js:165-173 | the comparator returns -1, 0 or 1; it is 0 exactly when the last names are equal and negative exactly when the first last name is smaller |
| Acknowledgements.CompareAntisymmetric | index.js:165-173 | swapping the arguments negates the comparison |
| Acknowledgements.CompareTransitive | index.js:165-173 | the comparator is transitive, so sorting with it is well defined |
| Acknowledgements.InsertByLastName | index.js:165-173 | inserting a name grows the list by one and keeps every element |
| Acknowledgements.InsertSorted | index.js:165-173 | inserting into a list ordered by last name keeps it ordered |
| Acknowledgements.SortByLastName | index.js:165-173 | the sorted list is a permutation of the input, ordered by last name |
| Acknowledgements.SortedAllPairs | index.js:165-173 | in the sorted list no name compares after a later one |
| Acknowledgements.SortStable | index.js:165-173 | names sharing a last name keep their input order |
| Acknowledgements.Acknowledge | index.js:150-173 | the printed list is a permutation of the display names collected, ordered by last name |
| Acknowledgements.CollectAllCached | index.js:151-163 | when every profile is cached, one display name is collected per key, in key order |
| Acknowledgements.CollectLength | index.js:151-163 | names are collected only for cached profiles, so one uncached key makes the list shorter than the keys |
| Acknowledgements.AcknowledgeAllCommenters | index.js:150-173 | with every commenter's profile cached, the list has one name per commenter, is sorted by last name, and holds exactly the commenters' display names |
| Acknowledgements.UncachedCommenterMissing | index.js:151-165 | as written: a commenter whose profile is not yet cached is missing from the sorted, printed list |
| Acknowledgements.FirstRunListsNobody | index.js:151-165 | as written: with an empty profile cache, one comment by "a" yields an empty acknowledgement list |
| Acknowledgements.FetchMissing | index.js:151-160 | fetching the missing profiles keeps every cached profile and covers every key |
| Acknowledgements.AcknowledgeAwaitedAll | index.js:150-173 | corrected: when every lookup completes before the sort, each commenter is listed once, from the cache or else from the fetch, in last-name order |
| Samples.SampleTranscripts | index.js:111 | in the worked example only the second comment is a transcript |
| Samples.SampleAstral | index.js:170-171 | U+1F600, given as two code units, has length 2 and sorts before U+FFFD, as in JavaScript |
| Samples.SampleInheritedLogin | index.js:104-116 | a comment by "constructor" creates no entry, while "a" is tallied as usual |
| Samples.SampleTally | index.js:102-116 | the worked example tallies to a: 1 comment, 2 units and b: 1 comment, 10 units, with the transcript ignored |
| Samples.SampleRank | index.js:119-132 | the worked example ranks a before b, both with score 1, keeping key order for the tie |
| Samples.SampleDisplayNames | index.js:162 | an empty or missing name shows the login, and a real name shows itself |
| Samples.SampleLastNames | index.js:166-169 | "Jane Doe" has last name "Doe", and "Bob Ackerman" has "Ackerman" |
| Samples.SampleAcknowledgements | index.js:165-173 | "Jane Doe", "Bob Ackerman" sorts to "Bob Ackerman", "Jane Doe" |

## Left out

- Network access is not modelled. This covers the Octokit client, listing issues and comments, and fetching user profiles (`index.js:31-66`, `index.js:156`), together with the per-commit fetch loop (`index.js:49-59`), whose results are not used. Comments are an input list, and the profile lookup is a function parameter (`fetch`).
- File-system reads and writes, JSON parsing, `dotenv` and directory creation are left out, because they are I/O. The comments file is an input sequence. The profile cache is an input map from login to profile.
- Only the text of each table line is modelled from `console.log` output. The progress messages, the raw dump of the records (`index.js:147`) and the final printing of the acknowledgements joined by `,\n` (`index.js:175`) are not modelled. The model stops at the sorted list of names.
- The commented-out issue listing (`index.js:69-99`) is left out, because it never runs.
- `Object.keys` lists integer-like keys first, in numeric order. The model keeps pure insertion order, so a purely numeric login would be listed at a different place than the script lists it.
- A non-transcript comment by `__proto__` makes line 114 write `comments` and `commentBytes` onto `Object.prototype` itself. Every object then inherits those two names, so later users called `comments` or `commentBytes` are dropped as well. The model treats `__proto__` like the other inherited names but does not model this side effect.
- JavaScript numbers are doubles. The model uses unbounded integers, which agree with the script while counts stay below 2^53.
- Ranking.Gather: its own contract gives only the length. The record contents are stated by `Ranking.GatherFacts` and `Ranking.RankRecords`.
- Table.RowLayout: it requires the user to fit 20 columns and the numbers to fit their cells. Wider values make `padStart` return the text unpadded, and the columns then shift; that case is covered only by `Text.PadStart`.
- Table.ReportLayout: for the same reason it states the layout only of the lines whose record fits its columns. For other lines it states only which record each line prints. A record whose user holds `%` also counts as not fitting, for the reason given under Table.LineLayout.
- Table.LineLayout: it requires the first cell to hold no `%`. `util.format` treats `%s`, `%d`, `%i`, `%f`, `%j`, `%o`, `%O` and `%c` in the first argument as directives that consume the next argument, and prints `%%` as one `%`. A user such as `a%sb` therefore swallows the first `|` separator, and `Table.Line` is not what is printed. That formatting is not modelled.
- Table.RowLayout: it requires the user to hold no `%`, for the reason given under Table.LineLayout.
- Acknowledgements.Acknowledge: it models only the names whose profile is already cached when the loop runs. Names pushed after the sort (see Findings) never reach the printed list.

## Findings

| source | as written | input that shows it | evidently intended | confidence | as-written member | corrected member |
|---|---|---|---|---|---|---|
| index.js:151-175 | the `forEach` callback is `async`, so a commenter whose profile is not yet cached is pushed only after `await` resolves, which is after the sort and print have already run | an empty profile cache and one comment by "a": the printed acknowledgement list is empty | every commenter is acknowledged, with profiles fetched before sorting | high; not executed | Acknowledgements.FirstRunListsNobody | Acknowledgements.AcknowledgeAwaitedAll |
