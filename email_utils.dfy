/** backend/utils/email.py: the address check used before mail is sent. */
module EmailUtils {
  import opened PyStr
  import opened Outcomes

  const EmptyMessage: string := "Email cannot be empty"
  const ShapeMessage: string := "Email must contain '@' & '.com' (e.g. user@example.com)"

  /** `validate_email(email)`: an empty address is refused, then one without
      `@` or without `.com` anywhere in its lower-cased form; otherwise the
      address comes back as it was given. */
  function ValidateEmail(email: string): (r: Result<string, Raised>)
    ensures email == [] ==> r == Failure(ValueError(EmptyMessage))
    ensures email != [] && ('@' !in email || !IsSubstring(".com", Lower(email))) ==>
              r == Failure(ValueError(ShapeMessage))
    ensures r.Success? <==> '@' in email && IsSubstring(".com", Lower(email))
    ensures r.Success? ==> r.value == email
  {
    if email == [] then Failure(ValueError(EmptyMessage))
    else if '@' !in email || !IsSubstring(".com", Lower(email)) then Failure(ValueError(ShapeMessage))
    else Success(email)
  }

  /** `sub` occurs in `s` at position `k`. */
  lemma {:induction false} SubstringAt(sub: string, s: string, k: nat)
    requires k + |sub| <= |s| && s[k..k + |sub|] == sub
    ensures IsSubstring(sub, s)
    decreases k
  {
    if k == 0 {
      assert s[..|sub|] == sub;
    } else {
      assert s[1..][k - 1..k - 1 + |sub|] == sub;
      SubstringAt(sub, s[1..], k - 1);
    }
  }

  /** An address with `@` at `at` and `.com` at `dot` of its lower-cased form is accepted. */
  lemma AcceptedAt(email: string, at: nat, dot: nat)
    requires at < |email| && email[at] == '@'
    requires dot + 4 <= |email| && Lower(email)[dot..dot + 4] == ".com"
    ensures ValidateEmail(email) == Success(email)
  {
    SubstringAt(".com", Lower(email), dot);
  }

  /** `.com` anywhere and in any case will do: upper-case `.COM` at the end,
      or `.com` as the start of a longer domain; ... */
  lemma LooseDotCom()
    ensures ValidateEmail("a@b.COM") == Success("a@b.COM")
    ensures ValidateEmail("a@b.company") == Success("a@b.company")
  {
    assert Lower("a@b.COM")[3..7] == ".com";
    AcceptedAt("a@b.COM", 1, 3);
    assert Lower("a@b.company")[3..7] == ".com";
    AcceptedAt("a@b.company", 1, 3);
  }

  /** ... the usual shape of course passes. */
  lemma PlainAddress()
    ensures ValidateEmail("user@example.com") == Success("user@example.com")
  {
    assert Lower("user@example.com")[12..16] == ".com";
    AcceptedAt("user@example.com", 4, 12);
  }

  /** Addresses refused for their shape: no `@`, or no `.com`. */
  lemma ShapeRejected()
    ensures ValidateEmail("noatsign.com") == Failure(ValueError(ShapeMessage))
    ensures ValidateEmail("missingdotcom@x") == Failure(ValueError(ShapeMessage))
    ensures ValidateEmail("") == Failure(ValueError(EmptyMessage))
  {
    assert '@' !in "noatsign.com";
    var lowered := Lower("missingdotcom@x");
    assert lowered == "missingdotcom@x";
    assert !IsSubstring(".com", lowered) by {
      NoDotBefore(lowered, 0);
    }
  }

  /** Past position `k`, a string without `.` holds no `.com`. */
  lemma {:induction false} NoDotBefore(s: string, k: nat)
    requires k <= |s| && '.' !in s[k..]
    ensures !IsSubstring(".com", s[k..])
    decreases |s| - k
  {
    if k < |s| {
      assert s[k..][0] != '.';
      assert s[k..][1..] == s[k + 1..];
      NoDotBefore(s, k + 1);
    } else {
      assert s[k..] == [];
    }
  }
}
