# Lunch roulette: the planning core in Dafny

`lunchroulette.rb` puts the people of an office Slack channel into random
lunch groups. It runs in two halves. The planning half turns the channel
roster into proposed groups. The commit half shows the groups to an operator
and messages each group. This project models the planning half as pure
functions over sequences and proves what each step guarantees:

1. **User map** (`Users`). Builds a map from Slack user ID to name and
   timezone. Deleted users, bots and app users are skipped, and a later user
   overwrites an earlier one with the same ID.
2. **Translation and timezone filter** (`Participants.Translate`). Channel
   members missing from the map are skipped without error. Members whose
   timezone does not match `/^America\/Los_Angeles/` are dropped. The rest
   become participants, in channel order. The prefix is the same for both
   offices.
3. **Exclusion** (`Participants.Exclude`). Participants whose username is on
   the opt-out list are removed.
4. **Group count** (`Grouping.NumGroups`). `NGROUPS = max(1, n / GROUP_SIZE)`
   with `GROUP_SIZE = 5`.
5. **Shuffle** (`Shuffling`). Ruby's `Array#shuffle` is a Fisher-Yates
   shuffle run from the end of the array. The seeded generator is an input:
   the stream of draws it yields.
6. **Deal** (`Grouping.Deal`). The loop puts the participant at shuffled
   index `i` into group `i % NGROUPS`.
7. **Pipeline** (`Plan.PlanGroups`). Runs steps 1 to 3 to get the pool,
   then steps 4 to 6 on it (`Plan.GroupPool`).

The helper `to_slack_handle` (`Text.ToSlackHandle`) is modelled as well. In
Ruby, `^` is a line anchor: it matches at the start of the string and right
after every newline. Both regular expressions are modelled that way
(`Text.LineStart`). Lemmas show that for a string without line breaks this
means "starts with".

The groups are pinned down completely. `Plan.GroupPool` and
`Plan.PlanGroups` promise that their result is the round-robin deal
(`Grouping.IsDeal`) of the shuffled pool, and `Grouping.DealDetermined`
shows that only one list of groups is such a deal. So the same user list,
roster and opt-out list, plus the same draws (which the seed fixes), always
give the same groups; `Plan.Rerun` runs the planning twice and proves the
two results equal. This is the reproducibility the fixed `RANDOM_SEED` is
for.

The script has no lottery down-selection, no before/after consistency check
and no deduplication of the roster, so the model has none either. It assumes
the channel lists no user twice (lunchroulette.rb:82). The properties that
depend on this take `NoDuplicates(members)` as a hypothesis.

The group-size message at lunchroulette.rb:118-119 promises `GROUP_SIZE` or
`GROUP_SIZE + 1` members per group. That promise does not hold in general.
The model proves the true bounds: every size is `n / NGROUPS` or one more;
there are at least `GROUP_SIZE` members per group once `n >= GROUP_SIZE`;
and the message is right exactly when `n % GROUP_SIZE <= NGROUPS`. Nine
participants make one group of nine.

## Model

| member | source | states |
|---|---|---|
| `Grouping.Max` | lunchroulette.rb:17-19 | the result is at least each argument and is one of them |
| `Text.AnchoredFrom` | lunchroulette.rb:86 | `/^pat/` matches exactly when `pat` occurs at the start of the string or right after a newline |
| `Text.AnchoredMatchSingleLine` | lunchroulette.rb:86 | on a string without line breaks, `/^pat/` matches exactly when the string starts with `pat` |
| `Text.HandleStart` | lunchroulette.rb:22 | the match begins at the leftmost line start that holds a non-'@' character with an '@' somewhere after it; there is no match exactly when no line start qualifies |
| `Text.ToSlackHandle` | lunchroulette.rb:21-23 | the call fails exactly when no line start holds a non-'@' character with an '@' after it. Otherwise the match begins at the leftmost such line start: the handle is non-empty, has no '@', and is followed there by '@'. With no '@' at all the call fails. If the address starts with a non-'@' and contains '@', the handle is its text before the first '@'. A single-line address that is empty or starts with '@' fails |
| `Text.HandleOfAddress` | lunchroulette.rb:21-23 | round trip: for any handle without '@' and any domain, `handle@domain` gives back `handle` |
| `Users.BuildMapping` | lunchroulette.rb:69-78 | an ID is in the map exactly when some user with that ID is neither deleted, a bot nor an app user; no stored entry is marked deleted |
| `Users.MappingHoldsLastRecorded` | lunchroulette.rb:71-78 | each entry holds the name and timezone of the last recorded user with that ID; later users with that ID were all skipped |
| `Users.MappingOfUniqueUser` | lunchroulette.rb:71-78 | with unique IDs, every recorded user maps to its own name and timezone, and a skipped user has no entry |
| `Participants.Translate` | lunchroulette.rb:80-91 | the output IDs are an order-preserving subsequence of the channel members, every participant produced is a member known to the map and in the office timezone, and duplicate-free members give duplicate-free participants |
| `Participants.TranslateMembers` | lunchroulette.rb:82-90 | a participant is produced exactly when its ID is a channel member, is in the map, has a timezone matching the office prefix, and its username is the mapped name |
| `Participants.OfficeTimezoneIsPrefix` | lunchroulette.rb:86 | for a timezone without line breaks, the filter keeps it exactly when it starts with `America/Los_Angeles` |
| `Participants.Exclude` | lunchroulette.rb:108-114 | the result is an order-preserving subsequence; a participant survives exactly when its username is not on the opt-out list; duplicate-freedom is kept |
| `Participants.SubseqIds` | lunchroulette.rb:108-114 | dropping participants while keeping order drops their IDs while keeping order |
| `Participants.ExcludeCount` | lunchroulette.rb:108-114 | the count before the exclusions equals the count after plus the number of opted-out participants |
| `Shuffling.Swap` | lunchroulette.rb:124 | one Fisher-Yates exchange: the two positions trade values, all other positions are unchanged, and the contents are the same multiset |
| `Shuffling.FisherYates` | lunchroulette.rb:124 | the loop only reorders (same length, same multiset), never touches positions already settled, and keeps duplicate-freedom |
| `Shuffling.Shuffle` | lunchroulette.rb:122-124 | for every stream of draws the shuffled list is a permutation of the participants |
| `Grouping.NumGroups` | lunchroulette.rb:116 | NGROUPS is at least 1 and at most `n` when `n >= 1`; it is 1 below `2 * GROUP_SIZE`; and from `GROUP_SIZE` people on, `NGROUPS * GROUP_SIZE <= n < (NGROUPS + 1) * GROUP_SIZE` |
| `Grouping.DealtClosedForm` | lunchroulette.rb:126-132 | round-robin dealing of `m` people into `n` groups gives group `g` exactly `m / n` people, plus one if `g < m % n` |
| `Grouping.Balanced` | lunchroulette.rb:126-132 | every group size is `m / n` or `m / n + 1`, any two sizes differ by at most one, and the first group is a largest one |
| `Grouping.AtLeastGroupSize` | lunchroulette.rb:25-27 | with at least `GROUP_SIZE` participants, every one of the NGROUPS groups has at least `GROUP_SIZE` members |
| `Grouping.FewMakeOneGroup` | lunchroulette.rb:116 | with fewer than `GROUP_SIZE` participants there is one group holding all of them |
| `Grouping.AnnouncedSizesIff` | lunchroulette.rb:118-119 | the announced "GROUP_SIZE or GROUP_SIZE + 1 each" bound holds exactly when `n % GROUP_SIZE <= NGROUPS` |
| `Grouping.NineMakeOneGroupOfNine` | lunchroulette.rb:118-119 | nine participants give one group of nine, breaking the announced bound |
| `Grouping.RoundRobinStep` | lunchroulette.rb:129-132 | one loop turn: the participant joins group `currentgroup`, which then advances by one and wraps to 0 after the last group; the deal invariant is kept |
| `Grouping.DealStep` | lunchroulette.rb:129-132 | one loop turn keeps both loop facts: the groups are the round-robin deal of the participants seen so far, and hold exactly those participants |
| `Grouping.RoundRobinDone` | lunchroulette.rb:126-132 | once every participant has been placed, index `i` sits in group `i % n` at position `i / n`, member `j` of group `g` is index `g + j * n`, and group `g` has `Dealt(m, n, g)` members |
| `Grouping.Deal` | lunchroulette.rb:126-132 | exactly `n` groups. Index `i` sits in group `i % n` at position `i / n`, and member `j` of group `g` is index `g + j * n`. Group `g` has `Dealt(m, n, g)` members; together these facts are the round-robin deal `IsDeal`. All groups together are a permutation of the input, so nobody is in two places when the input has no repeats |
| `Grouping.DealPlaces` | lunchroulette.rb:126-132 | in any round-robin deal, index `i` of the list sits in group `i % n` at position `i / n`, so a deal places every participant exactly where the loop puts them |
| `Grouping.DealDetermined` | lunchroulette.rb:126-132 | the round-robin deal of a list into `n` groups is unique: two deals of the same list are equal |
| `Plan.Pool` | lunchroulette.rb:80-114 | a person takes part exactly when they are a channel member, are in the map, are in the office timezone, carry the mapped name, and did not opt out. The pool keeps channel order: it is a subsequence of the translated participants, its IDs are a subsequence of the channel members, and it has no repeats when the channel has none |
| `Plan.GroupPool` | lunchroulette.rb:116-132 | the result is the round-robin deal of the shuffled pool into NGROUPS groups (at least one): member `j` of group `g` is shuffled index `g + j * NGROUPS`. All groups together are a permutation of the pool, so each person grouped comes from the pool. Sizes differ by at most one and are at least `GROUP_SIZE` once the pool has that many. Nobody is in two groups when nobody is in the pool twice |
| `Plan.PlanGroups` | lunchroulette.rb:69-132 | NGROUPS groups, at least one, forming the round-robin deal of the shuffled pool, so the groups are fixed by the inputs and the draws. All groups together are a permutation of the pool. Each person grouped is an eligible, non-excluded channel member. Sizes differ by at most one and are at least `GROUP_SIZE` once the pool has that many. Nobody is in two groups when the channel lists nobody twice |
| `Plan.Rerun` | lunchroulette.rb:29-31 | planning twice on the same user list, roster, opt-out list and draws gives the same groups |
| `Plan.TenMakeTwoGroupsOfFive` | lunchroulette.rb:116-132 | ten participants make two groups of five |

## Left out

- Slack Web API calls (`channels_info`, `users_list`, `mpim_open`, `chat_postMessage`, lunchroulette.rb:55-67, 147-177) are network I/O. The channel roster and the user list are inputs.
- The Google Drive session and the reading of opt-out rows from the spreadsheet (lunchroulette.rb:48, 95-105) are network I/O. The opt-out usernames are an input sequence. A `nil` cell cannot equal a username, so it is left out.
- Command-line parsing and the `--sf`/`--melbourne` check (lunchroulette.rb:36-44), and loading the JSON configuration (lunchroulette.rb:13-15, 33-34, 51-53), are process plumbing.
- Deriving `RANDOM_SEED` from the environment or today's date (lunchroulette.rb:31) reads a clock and the environment. The seed enters only through the draws it fixes.
- Shuffling.Shuffle: the generator's output is not modelled bit for bit. Ruby's Mersenne Twister and its bounded draw are not reproduced. The k-th draw, reduced modulo the bound, stands in for them. So the contract promises a permutation for every stream of draws, not the particular order Ruby would produce.
- The "is in ... excluding" report (lunchroulette.rb:89), the counts and the group listing (lunchroulette.rb:107-145), and the HighLine confirmation prompts are console I/O.
- slack-say.rb is one confirmation prompt and one posted message, with no logic.
