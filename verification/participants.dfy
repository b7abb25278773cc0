/** Turning the office channel's member list into lunch participants:
    translating user IDs to usernames, keeping only people in the Pacific
    timezone, and then removing everyone who opted out. */
module Participants {

  import opened Common
  import opened Text
  import opened Users

  /** A lunch participant: Slack username and user ID. */
  datatype Participant = Participant(username: string, id: string)

  /** The timezone prefix the roster is filtered on. It is the same for
      both offices. */
  const TIMEZONE_PREFIX: string := "America/Los_Angeles"

  /** `mapping[p][:timezone] =~ /^America\/Los_Angeles/`; a missing
      timezone (`nil`) never matches. */
  predicate InOfficeTimezone(tz: Option<string>) {
    tz.Some? && AnchoredMatch(TIMEZONE_PREFIX, tz.value)
  }

  /** A channel member that the translation loop keeps. */
  predicate Eligible(mapping: map<string, UserEntry>, uid: string) {
    uid in mapping && InOfficeTimezone(mapping[uid].timezone)
  }

  /** The user IDs of the participants, in order. */
  function Ids(ps: seq<Participant>): (r: seq<string>)
    ensures |r| == |ps| && forall k | 0 <= k < |ps| :: r[k] == ps[k].id
  {
    if |ps| == 0 then [] else [ps[0].id] + Ids(ps[1..])
  }

  /** Keeping some participants in order keeps their IDs in order. */
  lemma {:induction false} SubseqIds(a: seq<Participant>, b: seq<Participant>)
    requires SubseqOf(a, b)
    ensures SubseqOf(Ids(a), Ids(b))
    decreases |b|
  {
    if |a| > 0 {
      assert Ids(b)[1..] == Ids(b[1..]);
      if a[0] == b[0] && SubseqOf(a[1..], b[1..]) {
        SubseqIds(a[1..], b[1..]);
        assert Ids(a)[1..] == Ids(a[1..]);
      } else {
        SubseqIds(a, b[1..]);
      }
    }
  }

  /** The `raw_participants.each` loop: members unknown to the map are
      skipped, members outside the office timezone are reported and
      dropped, and the rest become participants in channel order. */
  function Translate(members: seq<string>, mapping: map<string, UserEntry>): (r: seq<Participant>)
    ensures |r| <= |members|
    ensures SubseqOf(Ids(r), members)
    ensures forall p | p in r :: p.id in members && Eligible(mapping, p.id)
    ensures NoDuplicates(members) ==> NoDuplicates(r)
    decreases |members|
  {
    if |members| == 0 then []
    else
      var uid := members[0];
      var rest := Translate(members[1..], mapping);
      assert forall x | x in members[1..] :: x in members;
      if uid !in mapping then rest
      else if InOfficeTimezone(mapping[uid].timezone) then
        var r := [Participant(mapping[uid].name, uid)] + rest;
        assert Ids(r)[1..] == Ids(rest);
        assert NoDuplicates(members) ==> uid !in members[1..];
        ConsNoDuplicates(Participant(mapping[uid].name, uid), rest);
        r
      else rest
  }

  /** Who the translation keeps: a participant is produced exactly when
      its ID is a channel member, known to the map and in the office
      timezone, and its username is the mapped name. */
  lemma {:induction false} TranslateMembers(members: seq<string>, mapping: map<string, UserEntry>, p: Participant)
    ensures p in Translate(members, mapping) <==>
      p.id in members && Eligible(mapping, p.id) && p.username == mapping[p.id].name
    decreases |members|
  {
    if |members| > 0 {
      TranslateMembers(members[1..], mapping, p);
      if p.id in members && p.id != members[0] {
        assert p.id in members[1..];
      }
    }
  }

  /** The `reject`: drop every participant whose username is in the
      opt-out list. */
  function Exclude(ps: seq<Participant>, exclusions: seq<string>): (r: seq<Participant>)
    ensures SubseqOf(r, ps)
    ensures forall p :: p in r <==> p in ps && p.username !in exclusions
    ensures NoDuplicates(ps) ==> NoDuplicates(r)
    decreases |ps|
  {
    if |ps| == 0 then []
    else
      var rest := Exclude(ps[1..], exclusions);
      assert forall x | x in ps[1..] :: x in ps;
      if ps[0].username in exclusions then rest
      else
        var r := [ps[0]] + rest;
        assert r[1..] == rest;
        assert NoDuplicates(ps) ==> ps[0] !in ps[1..];
        ConsNoDuplicates(ps[0], rest);
        r
  }

  /** How many of `ps` have an opted-out username, counting repeats. */
  function OptedOut(ps: seq<Participant>, exclusions: seq<string>): nat
    decreases |ps|
  {
    if |ps| == 0 then 0
    else (if ps[0].username in exclusions then 1 else 0) + OptedOut(ps[1..], exclusions)
  }

  /** Nobody is lost by the `reject` except the opted-out: the count before
      is the count after plus the number of opted-out participants. */
  lemma {:induction false} ExcludeCount(ps: seq<Participant>, exclusions: seq<string>)
    ensures |ps| == |Exclude(ps, exclusions)| + OptedOut(ps, exclusions)
    decreases |ps|
  {
    if |ps| > 0 {
      ExcludeCount(ps[1..], exclusions);
    }
  }

  /** With the office timezone and without line breaks in it, the
      timezone test is "starts with America/Los_Angeles". */
  lemma OfficeTimezoneIsPrefix(tz: string)
    requires '\n' !in tz
    ensures InOfficeTimezone(Some(tz)) <==> TIMEZONE_PREFIX <= tz
  {
    AnchoredMatchSingleLine(TIMEZONE_PREFIX, tz);
  }
}
