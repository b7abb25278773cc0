/** The planning half of lunchroulette.rb, end to end: from the user list,
    the office channel's member IDs, the opt-out list and the generator's
    draws to the proposed lunch groups that the operator is asked to
    confirm. */
module Plan {

  import opened Common
  import opened Users
  import opened Participants
  import opened Shuffling
  import opened Grouping

  /** `p` is a live office-channel member in the office timezone, under
      the mapped name, who did not opt out. */
  predicate TakesPart(users: seq<SlackUser>, members: seq<string>, exclusions: seq<string>, p: Participant) {
    var mapping := BuildMapping(users);
    && p.id in members
    && Eligible(mapping, p.id)
    && p.username == mapping[p.id].name
    && p.username !in exclusions
  }

  /** The people who take part: office-channel members in the office
      timezone who did not opt out, in channel order. */
  function Pool(users: seq<SlackUser>, members: seq<string>, exclusions: seq<string>): (r: seq<Participant>)
    ensures forall p :: p in r <==> TakesPart(users, members, exclusions, p)
    ensures SubseqOf(r, Translate(members, BuildMapping(users)))
    ensures SubseqOf(Ids(r), members)
    ensures NoDuplicates(members) ==> NoDuplicates(r)
  {
    var mapping := BuildMapping(users);
    var translated := Translate(members, mapping);
    assert forall p :: p in translated <==>
      p.id in members && Eligible(mapping, p.id) && p.username == mapping[p.id].name
    by {
      forall p
        ensures p in translated <==>
          p.id in members && Eligible(mapping, p.id) && p.username == mapping[p.id].name
      {
        TranslateMembers(members, mapping, p);
      }
    }
    var r := Exclude(translated, exclusions);
    SubseqIds(r, translated);
    SubseqTrans(Ids(r), Ids(translated), members);
    r
  }

  /** Lines 116-132 of lunchroulette.rb: compute NGROUPS, shuffle with the
      seeded generator, and deal round-robin. The result is exactly NGROUPS
      groups (never none), and they are the round-robin deal of the
      shuffled pool, so the pool and the draws fix them. Sizes differ by at most one and are at least GROUP_SIZE
      once there are that many people; nobody is in two groups when nobody
      is in the pool twice. */
  method GroupPool<T>(pool: seq<T>, draws: nat -> nat) returns (groups: seq<seq<T>>)
    ensures |groups| == NumGroups(|pool|) >= 1
    ensures IsDeal(Shuffle(pool, draws), |groups|, groups)
    ensures forall g, j | 0 <= g < |groups| && 0 <= j < |groups[g]| :: groups[g][j] in pool
    ensures forall g1, g2 | 0 <= g1 < |groups| && 0 <= g2 < |groups| ::
      |groups[g1]| <= |groups[g2]| + 1
    ensures |pool| >= GROUP_SIZE ==> forall g | 0 <= g < |groups| :: |groups[g]| >= GROUP_SIZE
    ensures NoDuplicates(pool) ==> NoDuplicates(Flatten(groups))
    ensures multiset(Flatten(groups)) == multiset(pool)
  {
    var count := NumGroups(|pool|);
    var shuffled := Shuffle(pool, draws);
    groups := Deal(shuffled, count);
    var m := |shuffled|;
    forall g1, g2 | 0 <= g1 < count && 0 <= g2 < count
      ensures |groups[g1]| <= |groups[g2]| + 1
    {
      Balanced(m, count, g1, g2);
    }
    if m >= GROUP_SIZE {
      forall g | 0 <= g < count
        ensures |groups[g]| >= GROUP_SIZE
      {
        AtLeastGroupSize(m, g);
      }
    }
    forall g, j | 0 <= g < count && 0 <= j < |groups[g]|
      ensures groups[g][j] in pool
    {
      var x := groups[g][j];
      assert x in multiset(Flatten(groups)) by {
        FlattenHolds(groups, g, j);
      }
      assert x in multiset(shuffled);
    }
  }

  /** Lines 69-132 of lunchroulette.rb: build the user map, translate and
      filter the channel members, drop the opted-out, and group the rest
      with `GroupPool`. The groups are the round-robin deal of the shuffled
      pool; everyone grouped takes part and everyone taking part is
      grouped. */
  method PlanGroups(users: seq<SlackUser>, members: seq<string>, exclusions: seq<string>,
                    draws: nat -> nat)
    returns (groups: seq<seq<Participant>>)
    ensures |groups| == NumGroups(|Pool(users, members, exclusions)|) >= 1
    ensures IsDeal(Shuffle(Pool(users, members, exclusions), draws), |groups|, groups)
    ensures multiset(Flatten(groups)) == multiset(Pool(users, members, exclusions))
    ensures forall g, j | 0 <= g < |groups| && 0 <= j < |groups[g]| ::
      TakesPart(users, members, exclusions, groups[g][j])
    ensures forall g1, g2 | 0 <= g1 < |groups| && 0 <= g2 < |groups| ::
      |groups[g1]| <= |groups[g2]| + 1
    ensures |Pool(users, members, exclusions)| >= GROUP_SIZE ==>
      forall g | 0 <= g < |groups| :: |groups[g]| >= GROUP_SIZE
    ensures NoDuplicates(members) ==> NoDuplicates(Flatten(groups))
  {
    var mapping := BuildMapping(users);
    var participants := Translate(members, mapping);
    participants := Exclude(participants, exclusions);
    assert participants == Pool(users, members, exclusions);
    groups := GroupPool(participants, draws);
  }

  /** Running the planning twice with the same seed (so the same draws) on
      the same inputs gives the same groups: what the fixed RANDOM_SEED of
      lunchroulette.rb:29-31 is for. */
  method Rerun(users: seq<SlackUser>, members: seq<string>, exclusions: seq<string>,
               draws: nat -> nat)
    returns (first: seq<seq<Participant>>, second: seq<seq<Participant>>)
    ensures first == second
  {
    first := PlanGroups(users, members, exclusions, draws);
    second := PlanGroups(users, members, exclusions, draws);
    var pool := Pool(users, members, exclusions);
    DealDetermined(Shuffle(pool, draws), |first|, first, second);
  }

  /** Ten people left after the opt-outs make two groups of five. */
  lemma TenMakeTwoGroupsOfFive()
    ensures NumGroups(10) == 2 && Dealt(10, 2, 0) == 5 && Dealt(10, 2, 1) == 5
  {
    DealtClosedForm(10, 2, 0);
    DealtClosedForm(10, 2, 1);
  }
}
