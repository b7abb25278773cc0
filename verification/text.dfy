/** The pieces of Ruby regular-expression matching the roster code relies
    on. In Ruby, `^` is a LINE anchor: it matches at the start of the string
    and right after every "\n", not only at the start of the string. */
module Text {

  import opened Common

  /** Position `i` of `s` is where `^` can match. */
  predicate LineStart(s: string, i: nat) {
    i == 0 || (i <= |s| && s[i - 1] == '\n')
  }

  /** `pat` occurs in `s` starting at position `i`. */
  predicate OccursAt(pat: string, s: string, i: nat) {
    i + |pat| <= |s| && s[i..i + |pat|] == pat
  }

  /** `/^pat/ =~ s` restricted to start positions `from` and later: is there
      a line start at or after `from` where `pat` occurs? */
  function AnchoredFrom(pat: string, s: string, from: nat): (r: bool)
    requires from <= |s| + 1
    ensures r <==> exists i :: from <= i <= |s| && LineStart(s, i) && OccursAt(pat, s, i)
    decreases |s| + 1 - from
  {
    if from > |s| then false
    else if LineStart(s, from) && OccursAt(pat, s, from) then true
    else AnchoredFrom(pat, s, from + 1)
  }

  /** Ruby's `s =~ /^pat/` taken as a truth value. */
  function AnchoredMatch(pat: string, s: string): bool {
    AnchoredFrom(pat, s, 0)
  }

  /** A string that starts with `pat` always matches `/^pat/`. */
  lemma PrefixMatches(pat: string, s: string)
    requires pat <= s
    ensures AnchoredMatch(pat, s)
  {
    assert LineStart(s, 0) && OccursAt(pat, s, 0);
  }

  /** For a string without line breaks, `/^pat/` means "starts with pat". */
  lemma AnchoredMatchSingleLine(pat: string, s: string)
    requires '\n' !in s
    ensures AnchoredMatch(pat, s) <==> pat <= s
  {
    if AnchoredMatch(pat, s) {
      var i :| 0 <= i <= |s| && LineStart(s, i) && OccursAt(pat, s, i);
      assert s[..|pat|] == pat;
    } else if pat <= s {
      PrefixMatches(pat, s);
    }
  }

  /** Position `p` of `s` is where `/(^[^@]+)@/` can match: a line start
      holding a character other than '@', with an '@' somewhere after it. */
  predicate HandleMatchesAt(s: string, p: nat) {
    p < |s| && LineStart(s, p) && s[p] != '@' && '@' in s[p..]
  }

  /** Index of the first '@' at or after `p`. */
  function FirstAt(s: string, p: nat): (q: nat)
    requires p < |s| && '@' in s[p..]
    ensures p <= q < |s| && s[q] == '@' && '@' !in s[p..q]
    decreases |s| - p
  {
    if s[p] == '@' then p
    else
      assert s[p..] == [s[p]] + s[p + 1..];
      var q := FirstAt(s, p + 1);
      assert s[p..q] == [s[p]] + s[p + 1..q];
      q
  }

  /** Where the leftmost match of `/(^[^@]+)@/` at `p` or later begins;
      `None` when there is no match. */
  function HandleStart(s: string, p: nat): (r: Option<nat>)
    requires p <= |s|
    ensures r.None? <==> forall k :: p <= k < |s| ==> !HandleMatchesAt(s, k)
    ensures r.Some? ==>
      p <= r.value < |s| && HandleMatchesAt(s, r.value) &&
      forall k :: p <= k < r.value ==> !HandleMatchesAt(s, k)
    decreases |s| - p
  {
    if p == |s| then None
    else if HandleMatchesAt(s, p) then Some(p)
    else HandleStart(s, p + 1)
  }

  /** The error `to_slack_handle` raises: the match is nil and indexing it
      fails. */
  datatype HandleError = NoMatch

  /** `to_slack_handle(email)`: the capture group of the first match of
      `/(^[^@]+)@/`, that is, the text of some line of `email` up to the
      first '@' after the line start. */
  function ToSlackHandle(email: string): (r: Result<string, HandleError>)
    // the handle is non-empty, has no '@', and is followed by '@' at the
    // leftmost line start where the pattern can match
    ensures r.Ok? ==>
      |r.value| > 0 && '@' !in r.value &&
      exists p :: 0 <= p < |email| && HandleMatchesAt(email, p) &&
        (forall k | 0 <= k < p :: !HandleMatchesAt(email, k)) &&
        OccursAt(r.value + "@", email, p)
    // it fails exactly when no line start can begin a match
    ensures r.Err? <==> forall k :: 0 <= k < |email| ==> !HandleMatchesAt(email, k)
    // no '@' anywhere: the match is nil
    ensures '@' !in email ==> r.Err?
    // the usual case: the part before the first '@'
    ensures |email| > 0 && email[0] != '@' && '@' in email ==>
      r.Ok? && r.value + "@" <= email
    // a single line that is empty or starts with '@': the match is nil
    ensures '\n' !in email && (|email| == 0 || email[0] == '@') ==> r.Err?
  {
    match HandleStart(email, 0)
    case Some(k) =>
      // the capture group runs from the line start to the first '@' after it
      var q := FirstAt(email, k);
      assert email[k..q + 1] == email[k..q] + "@";
      assert OccursAt(email[k..q] + "@", email, k);
      Ok(email[k..q])
    case None =>
      assert !HandleMatchesAt(email, 0);
      Err(NoMatch)
  }

  /** An address `handle@domain` gives back `handle`. */
  lemma {:induction false} HandleOfAddress(handle: string, domain: string)
    requires |handle| > 0 && '@' !in handle
    ensures ToSlackHandle(handle + "@" + domain) == Ok(handle)
  {
    var email := handle + "@" + domain;
    assert email[..|handle|] == handle;
    assert email[0..][|handle|] == '@';
    assert HandleMatchesAt(email, 0);
    assert HandleStart(email, 0) == Some(0);
    // the first '@' of the address is the one right after the handle
    var q := FirstAt(email, 0);
    assert q == |handle|;
  }
}
