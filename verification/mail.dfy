/**
 * The address argument type of graf-report.py (`mail_type`): a start-anchored
 * match of the pattern `[^@^\s]+@[^@^\s]+\.[^@\s]+`.
 */
module MailAddress {
  import opened Wrappers
  import opened Strings

  /** `[^@^\s]`: the class of the local part and of the domain. */
  predicate IsNameChar(c: char)
  {
    c != '@' && c != '^' && !IsSpace(c)
  }

  /** `[^@\s]`: the class of the part after the last matched dot. */
  predicate IsTailChar(c: char)
  {
    c != '@' && !IsSpace(c)
  }

  ghost predicate IsNameRun(s: string)
  {
    |s| > 0 && forall i :: 0 <= i < |s| ==> IsNameChar(s[i])
  }

  ghost predicate IsTailRun(s: string)
  {
    |s| > 0 && forall i :: 0 <= i < |s| ==> IsTailChar(s[i])
  }

  /** `L@D.T` with each piece a run of its class. */
  ghost predicate IsAddress(local: string, domain: string, tail: string)
  {
    IsNameRun(local) && IsNameRun(domain) && IsTailRun(tail)
  }

  /** What `re.match` decides: some `L@D.T` is a prefix of `s`; whatever follows is not looked at. */
  ghost predicate BeginsWithAddress(s: string)
  {
    exists local, domain, tail ::
      IsAddress(local, domain, tail) && local + "@" + domain + "." + tail <= s
  }

  /** The end of the longest run of name characters starting at `from`. */
  function NameSpan(s: string, from: nat): (r: nat)
    requires from <= |s|
    ensures from <= r <= |s|
    ensures forall k :: from <= k < r ==> IsNameChar(s[k])
    ensures r == |s| || !IsNameChar(s[r])
    decreases |s| - from
  {
    if from < |s| && IsNameChar(s[from]) then NameSpan(s, from + 1) else from
  }

  /**
   * The decision the regular-expression engine makes. The local part cannot hold
   * `@`, so it ends at the first character outside its class, which must be `@`.
   * The domain may hold dots, so any dot inside the run that follows serves,
   * provided the character after it is in the tail class.
   */
  predicate Matches(s: string): (b: bool)
    ensures b ==> '@' in s && |s| >= 5
  {
    var at := NameSpan(s, 0);
    && 0 < at < |s|
    && s[at] == '@'
    && var stop := NameSpan(s, at + 1);
    exists dot :: at + 1 < dot < stop && s[dot] == '.' && dot + 1 < |s| && IsTailChar(s[dot + 1])
  }

  const InvalidMail := "The mail is not a valid email"

  /** `mail_type(s)`: the input unchanged when it matches, otherwise the rejection message. */
  function MailType(s: string): (r: Result<string, string>)
    ensures r.Success? ==> r.value == s && '@' in s
    ensures r.Failure? ==> r.error == InvalidMail
  {
    if Matches(s) then Success(s) else Failure(InvalidMail)
  }

  /** `mail_type` accepts exactly the strings that begin with an `L@D.T` address, and returns them unchanged. */
  lemma MailTypeSpec(s: string)
    ensures MailType(s).Success? <==> BeginsWithAddress(s)
    ensures MailType(s).Success? ==> MailType(s).value == s
    ensures MailType(s).Failure? ==> MailType(s).error == InvalidMail
  {
    MatchesBegins(s);
    BeginsMatches(s);
  }

  /** A match found by the scan exhibits an address prefix: the local run, the domain up to the dot, one tail character. */
  lemma MatchesBegins(s: string)
    ensures Matches(s) ==> BeginsWithAddress(s)
  {
    if Matches(s) {
      var at := NameSpan(s, 0);
      var stop := NameSpan(s, at + 1);
      var dot :| at + 1 < dot < stop && s[dot] == '.' && dot + 1 < |s| && IsTailChar(s[dot + 1]);
      var local, domain, tail := s[..at], s[at + 1..dot], [s[dot + 1]];
      assert IsAddress(local, domain, tail);
      assert local + "@" + domain + "." + tail == s[..dot + 2];
    }
  }

  /** An address prefix is found by the scan: the local run ends at its `@`, and its dot lies inside the domain run. */
  lemma BeginsMatches(s: string)
    ensures BeginsWithAddress(s) ==> Matches(s)
  {
    if BeginsWithAddress(s) {
      var local, domain, tail :| IsAddress(local, domain, tail) && local + "@" + domain + "." + tail <= s;
      var at, dot := |local|, |local| + 1 + |domain|;
      var whole := local + "@" + domain + "." + tail;
      assert forall k :: 0 <= k < at ==> s[k] == whole[k] == local[k];
      assert s[at] == whole[at] == '@';
      assert forall k :: at < k < dot ==> s[k] == whole[k] == domain[k - at - 1];
      assert s[dot] == whole[dot] == '.';
      assert s[dot + 1] == whole[dot + 1] == tail[0];
      assert NameSpan(s, 0) == at;
      assert NameSpan(s, at + 1) > dot;
    }
  }

  /** Only the start of the input is checked: an accepted string stays accepted whatever is appended. */
  lemma MailTypeIgnoresSuffix(s: string, rest: string)
    requires MailType(s).Success?
    ensures MailType(s + rest) == Success(s + rest)
  {
    MailTypeSpec(s);
    var local, domain, tail :| IsAddress(local, domain, tail) && local + "@" + domain + "." + tail <= s;
    assert local + "@" + domain + "." + tail <= s + rest;
    MailTypeSpec(s + rest);
  }

  /** An address prefix puts an `@` right after the local part and a dot after the domain. */
  lemma AddressLayout(s: string, local: string, domain: string, tail: string)
    requires IsAddress(local, domain, tail) && local + "@" + domain + "." + tail <= s
    ensures s[|local|] == '@' && forall k :: 0 <= k < |local| ==> s[k] != '@'
    ensures s[|local| + 1 + |domain|] == '.'
  {
    var whole := local + "@" + domain + "." + tail;
    assert s[|local|] == whole[|local|];
    assert forall k :: 0 <= k < |local| ==> s[k] == whole[k] == local[k];
    assert s[|local| + 1 + |domain|] == whole[|local| + 1 + |domain|];
  }

  /** An input without `@` begins with no address and is rejected. */
  lemma MailTypeNeedsAt(s: string)
    requires '@' !in s
    ensures !BeginsWithAddress(s)
    ensures MailType(s) == Failure(InvalidMail)
  {
    forall local, domain, tail | IsAddress(local, domain, tail)
      ensures !(local + "@" + domain + "." + tail <= s)
    {
      var whole := local + "@" + domain + "." + tail;
      assert whole[|local|] == '@';
    }
  }

  /** An address prefix needs a dot somewhere after the first `@`; without one the input is rejected. */
  lemma MailTypeNeedsDot(s: string, at: nat)
    requires at < |s| && s[at] == '@' && '@' !in s[..at]
    ensures BeginsWithAddress(s) ==> '.' in s[at + 1..]
    ensures '.' !in s[at + 1..] ==> MailType(s) == Failure(InvalidMail)
  {
    if BeginsWithAddress(s) {
      var local, domain, tail :| IsAddress(local, domain, tail) && local + "@" + domain + "." + tail <= s;
      AddressLayout(s, local, domain, tail);
      assert forall k :: 0 <= k < at ==> s[k] != '@' by {
        assert forall k :: 0 <= k < at ==> s[k] == s[..at][k];
      }
      assert |local| == at;
      var dot := |local| + 1 + |domain|;
      assert s[at + 1..][dot - at - 1] == '.';
    }
    MailTypeSpec(s);
  }
}
