/** The user map of lunchroulette.rb: from each Slack user ID to the name
    and timezone of that user, leaving out deleted users, bots and app
    users. */
module Users {

  import opened Common

  /** One member of the workspace's user list. A Ruby flag that is `nil`
      counts as false. */
  datatype SlackUser = SlackUser(
    id: string,
    name: string,
    tz: Option<string>,
    deleted: bool,
    isBot: bool,
    isAppUser: bool)

  /** What the map records about a user. */
  datatype UserEntry = UserEntry(name: string, timezone: Option<string>, deleted: bool)

  /** The loop's `next` conditions: users it does not record. */
  predicate Skipped(u: SlackUser) {
    u.deleted || u.isBot || u.isAppUser
  }

  function EntryOf(u: SlackUser): UserEntry {
    UserEntry(u.name, u.tz, u.deleted)
  }

  /** `u` is recorded and no later recorded user has the same ID, so its
      entry is the one that stays in the map. */
  ghost predicate LastRecorded(users: seq<SlackUser>, i: int) {
    0 <= i < |users| && !Skipped(users[i]) &&
    forall j | i < j < |users| :: users[j].id != users[i].id || Skipped(users[j])
  }

  /** The `users_list.each` loop: each user that is not skipped is stored
      under its ID, a later user overwriting an earlier one with the same
      ID. */
  function BuildMapping(users: seq<SlackUser>): (m: map<string, UserEntry>)
    ensures forall id :: id in m <==>
      exists i :: 0 <= i < |users| && users[i].id == id && !Skipped(users[i])
    ensures forall id | id in m :: !m[id].deleted
    decreases |users|
  {
    if |users| == 0 then map[]
    else
      var front := users[..|users| - 1];
      var u := users[|users| - 1];
      var m := BuildMapping(front);
      assert forall i | 0 <= i < |front| :: front[i] == users[i];
      if Skipped(u) then m else m[u.id := EntryOf(u)]
  }

  /** A user that stays last recorded among a prefix stays so when the
      next user is skipped or has another ID. */
  lemma LastRecordedExtends(users: seq<SlackUser>, i: nat)
    requires |users| > 0 && LastRecorded(users[..|users| - 1], i)
    requires Skipped(users[|users| - 1]) || users[|users| - 1].id != users[i].id
    ensures LastRecorded(users, i)
  {
    var front := users[..|users| - 1];
    assert users[i] == front[i];
    forall j | i < j < |users|
      ensures users[j].id != users[i].id || Skipped(users[j])
    {
      if j < |users| - 1 {
        assert users[j] == front[j];
      }
    }
  }

  /** Every entry of the map is that of the last recorded user with its ID. */
  lemma {:induction false} MappingHoldsLastRecorded(users: seq<SlackUser>, id: string)
    requires id in BuildMapping(users)
    ensures exists i :: LastRecorded(users, i) && users[i].id == id && BuildMapping(users)[id] == EntryOf(users[i])
    decreases |users|
  {
    var front := users[..|users| - 1];
    var u := users[|users| - 1];
    var m := BuildMapping(users);
    var m0 := BuildMapping(front);
    if !Skipped(u) && id == u.id {
      assert LastRecorded(users, |users| - 1);
    } else {
      assert id in m0 && m[id] == m0[id];
      MappingHoldsLastRecorded(front, id);
      var i :| LastRecorded(front, i) && front[i].id == id && m0[id] == EntryOf(front[i]);
      LastRecordedExtends(users, i);
    }
  }

  /** Slack user IDs are unique. */
  predicate UniqueIds(users: seq<SlackUser>) {
    forall i, j | 0 <= i < j < |users| :: users[i].id != users[j].id
  }

  /** With unique IDs, the map holds each recorded user's own name and
      timezone, and nothing for a user the loop skips. */
  lemma MappingOfUniqueUser(users: seq<SlackUser>, i: nat)
    requires UniqueIds(users) && i < |users|
    ensures !Skipped(users[i]) ==>
      users[i].id in BuildMapping(users) && BuildMapping(users)[users[i].id] == EntryOf(users[i])
    ensures Skipped(users[i]) ==> users[i].id !in BuildMapping(users)
  {
    var m := BuildMapping(users);
    var id := users[i].id;
    if !Skipped(users[i]) {
      MappingHoldsLastRecorded(users, id);
      var k :| LastRecorded(users, k) && users[k].id == id && m[id] == EntryOf(users[k]);
    }
  }
}
