/** The sign-in and sign-up form (src/components/auth/LoginForm.tsx): the e-mail pattern, the
    checks run before any request, the classification of sign-up replies, and the form's mode and
    loading flags. The authentication service is represented by its replies, given as parameters. */
module LoginForm {
  import opened Types
  import opened Text

  /** A character of the class [^\s@]. */
  predicate Plain(c: char) {
    !IsWhiteSpace(c) && c != '@'
  }

  predicate AllPlain(s: string) {
    forall k :: 0 <= k < |s| ==> Plain(s[k])
  }

  /** s splits as A '@' B '.' C with A, B and C non-empty runs of [^\s@], the '@' at i and the
      '.' at j: one way for /^[^\s@]+@[^\s@]+\.[^\s@]+$/ to match. */
  predicate EmailShape(s: string, i: int, j: int) {
    && 0 < i && i + 1 < j && j + 1 < |s|
    && s[i] == '@' && s[j] == '.'
    && AllPlain(s[..i]) && AllPlain(s[i + 1..])
  }

  /** The e-mail pattern test. */
  predicate IsValidEmail(s: string) {
    exists i, j :: 0 <= i < |s| && 0 <= j < |s| && EmailShape(s, i, j)
  }

  /** The number of occurrences of c in s. */
  function CountOf(s: string, c: char): (n: nat)
    ensures n <= |s|
  {
    if s == [] then 0 else (if s[0] == c then 1 else 0) + CountOf(s[1..], c)
  }

  lemma {:induction false} CountAppend(a: string, b: string, c: char)
    ensures CountOf(a + b, c) == CountOf(a, c) + CountOf(b, c)
  {
    if a == [] {
      assert a + b == b;
    } else {
      assert (a + b)[1..] == a[1..] + b;
      CountAppend(a[1..], b, c);
    }
  }

  lemma {:induction false} CountZero(s: string, c: char)
    ensures CountOf(s, c) == 0 <==> forall k :: 0 <= k < |s| ==> s[k] != c
  {
    if s != [] {
      CountZero(s[1..], c);
      if CountOf(s, c) == 0 {
        forall k | 0 <= k < |s| ensures s[k] != c {
          if k > 0 {
            assert s[k] == s[1..][k - 1];
          }
        }
      }
    }
  }

  /** The index of the first occurrence of c in s. */
  function FirstIndex(s: string, c: char): (r: Option<nat>)
    ensures r.Some? ==> r.value < |s| && s[r.value] == c && forall k :: 0 <= k < r.value ==> s[k] != c
    ensures r.None? ==> forall k :: 0 <= k < |s| ==> s[k] != c
  {
    if s == [] then None
    else if s[0] == c then Some(0)
    else match FirstIndex(s[1..], c)
      case Some(i) => Some(i + 1)
      case None => None
  }

  /** d has a '.' that is neither its first nor its last character. */
  predicate HasInnerDot(d: string) {
    exists k :: 0 < k < |d| - 1 && d[k] == '.'
  }

  /** The condition the pattern amounts to: no white space, exactly one '@', at least one
      character before it, and a domain after it with an inner '.'. */
  predicate EmailConditions(s: string) {
    && (forall k :: 0 <= k < |s| ==> !IsWhiteSpace(s[k]))
    && CountOf(s, '@') == 1
    && FirstIndex(s, '@').Some? && FirstIndex(s, '@').value > 0
    && HasInnerDot(s[FirstIndex(s, '@').value + 1..])
  }

  /** The occurrences of '@' in s, split around position i. */
  lemma {:induction false} CountAround(s: string, i: int)
    requires 0 <= i < |s|
    ensures CountOf(s, '@') == CountOf(s[..i], '@') + (if s[i] == '@' then 1 else 0) + CountOf(s[i + 1..], '@')
  {
    var a, t := s[..i], s[i..];
    assert s == a + t;
    CountAppend(a, t, '@');
    assert t[0] == s[i] && t[1..] == s[i + 1..];
    assert CountOf(t, '@') == (if t[0] == '@' then 1 else 0) + CountOf(t[1..], '@');
  }

  lemma EmailRuleSound(s: string)
    requires IsValidEmail(s)
    ensures EmailConditions(s)
  {
    var i, j :| 0 <= i < |s| && 0 <= j < |s| && EmailShape(s, i, j);
    var a, b := s[..i], s[i + 1..];
    CountAround(s, i);
    CountZero(a, '@');
    CountZero(b, '@');
    forall k | 0 <= k < |s| ensures !IsWhiteSpace(s[k]) {
      if k < i {
        assert s[k] == a[k];
      } else if k > i {
        assert s[k] == b[k - i - 1];
      }
    }
    assert b[j - i - 1] == '.';
  }

  lemma EmailRuleComplete(s: string)
    requires EmailConditions(s)
    ensures IsValidEmail(s)
  {
    var i := FirstIndex(s, '@').value;
    var a, b := s[..i], s[i + 1..];
    CountAround(s, i);
    CountZero(a, '@');
    CountZero(b, '@');
    var k :| 0 < k < |b| - 1 && b[k] == '.';
    assert AllPlain(a) by {
      forall m | 0 <= m < |a| ensures Plain(a[m]) {
        assert a[m] == s[m];
      }
    }
    assert AllPlain(b) by {
      forall m | 0 <= m < |b| ensures Plain(b[m]) {
        assert b[m] == s[i + 1 + m];
      }
    }
    assert EmailShape(s, i, i + 1 + k);
  }

  /** The pattern accepts exactly the strings that meet those conditions. */
  lemma EmailRule(s: string)
    ensures IsValidEmail(s) <==> EmailConditions(s)
  {
    if IsValidEmail(s) {
      EmailRuleSound(s);
    }
    if EmailConditions(s) {
      EmailRuleComplete(s);
    }
  }

  /** Why a submit is refused before any request is made. */
  datatype Rejection = InvalidEmail | PasswordTooShort | PasswordMismatch

  /** The checks of handleSubmit, in order: the e-mail pattern in both modes; then, only when
      signing up, a password of at least 6 characters and a matching confirmation. */
  function Validate(email: string, password: string, confirm: string, isSignUp: bool): (r: Option<Rejection>)
    ensures r.None? <==> IsValidEmail(email) && (isSignUp ==> |password| >= 6 && password == confirm)
    ensures !IsValidEmail(email) ==> r == Some(InvalidEmail)
    ensures IsValidEmail(email) && isSignUp && |password| < 6 ==> r == Some(PasswordTooShort)
    ensures r == Some(PasswordMismatch) <==> IsValidEmail(email) && isSignUp && |password| >= 6 && password != confirm
    ensures !isSignUp ==> (r.None? <==> IsValidEmail(email))
  {
    if !IsValidEmail(email) then Some(InvalidEmail)
    else if isSignUp && |password| < 6 then Some(PasswordTooShort)
    else if isSignUp && password != confirm then Some(PasswordMismatch)
    else None
  }

  /** The substrings that mark a sign-up error as "this address is already registered". */
  const DuplicateMarkers: seq<string> := [
    "User already registered",
    "already been registered",
    "already been taken",
    "A user with this email address has already been registered",
    "duplicate",
    "already_exists"
  ]

  predicate IsDuplicateEmailError(message: string) {
    exists k :: 0 <= k < |DuplicateMarkers| && Contains(message, DuplicateMarkers[k])
  }

  /** The second marker is the tail of the fourth, from index 35. */
  lemma SecondMarkerInFourth()
    ensures OccursAt(DuplicateMarkers[3], DuplicateMarkers[1], 35)
  {
    assert DuplicateMarkers[3][35..] == DuplicateMarkers[1];
  }

  /** The fourth marker adds nothing: every message containing it contains the second. */
  lemma LongMarkerRedundant(message: string)
    ensures IsDuplicateEmailError(message) <==>
      || Contains(message, DuplicateMarkers[0]) || Contains(message, DuplicateMarkers[1])
      || Contains(message, DuplicateMarkers[2]) || Contains(message, DuplicateMarkers[4])
      || Contains(message, DuplicateMarkers[5])
  {
    SecondMarkerInFourth();
    if Contains(message, DuplicateMarkers[3]) {
      ContainsTransitive(message, DuplicateMarkers[3], DuplicateMarkers[1]);
    }
  }

  /** The reply of signInWithPassword: whether it carries a session, and its error message. */
  datatype SignInReply = SignInReply(session: bool, error: Option<string>)

  /** The user of a sign-up reply: the length of its identities array, None when absent. */
  datatype User = User(identities: Option<nat>)

  /** The reply of signUp. */
  datatype SignUpReply = SignUpError(message: string) | SignUpData(user: Option<User>, session: bool)

  /** What the form reports after a submit. */
  datatype Outcome =
    | Rejected(reason: Rejection)
    | AlreadyRegistered
    | Failed(message: string)
    | AuthFailed
    | SignedIn
    | Registered
    | VerificationPending
    | NoFeedback

  /** The catch block: the error's message, or the generic failure text for an empty one. */
  function ErrorToast(message: string): (o: Outcome)
    ensures o.Failed? || o.AuthFailed?
    ensures o.Failed? <==> message != ""
    ensures o.Failed? ==> o.message == message
  {
    if message == "" then AuthFailed else Failed(message)
  }

  /** Signing up: a probe sign-in, then signUp, then, for a user without a session, one more
      sign-in. */
  function SignUpOutcome(probe: SignInReply, reply: SignUpReply, retry: SignInReply): (o: Outcome)
    ensures o.Registered? ==> reply.SignUpData? && (reply.session || (retry.session && retry.error.None?))
    ensures o.VerificationPending? ==> reply.SignUpData? && reply.user.Some? && !reply.session
  {
    if probe.session then AlreadyRegistered
    else match reply
      case SignUpError(message) =>
        if IsDuplicateEmailError(message) then AlreadyRegistered else ErrorToast(message)
      case SignUpData(user, session) =>
        if user.Some? && user.value.identities == Some(0) then AlreadyRegistered
        else if session then Registered
        else if user.Some? then (if retry.session && retry.error.None? then Registered else VerificationPending)
        else NoFeedback
  }

  /** A sign-up is reported as already registered exactly when the probe signed in, or signUp
      failed with a duplicate-address message, or it returned a user with no identities. */
  lemma AlreadyRegisteredCases(probe: SignInReply, reply: SignUpReply, retry: SignInReply)
    ensures SignUpOutcome(probe, reply, retry).AlreadyRegistered? <==>
      || probe.session
      || (reply.SignUpError? && IsDuplicateEmailError(reply.message))
      || (reply.SignUpData? && reply.user == Some(User(Some(0))))
  {
  }

  /** Signing in: an error is reported, anything else counts as signed in. */
  function SignInOutcome(reply: SignInReply): (o: Outcome)
    ensures o.SignedIn? <==> reply.error.None?
    ensures reply.error.Some? ==> o == ErrorToast(reply.error.value)
  {
    if reply.error.Some? then ErrorToast(reply.error.value) else SignedIn
  }

  /** handleSubmit. `first` is the reply of the first signInWithPassword call: the probe when
      signing up, the sign-in itself otherwise. */
  function SubmitOutcome(email: string, password: string, confirm: string, isSignUp: bool,
                         first: SignInReply, reply: SignUpReply, retry: SignInReply): (o: Outcome)
    ensures o.Rejected? <==> Validate(email, password, confirm, isSignUp).Some?
    ensures o.Rejected? ==> o.reason == Validate(email, password, confirm, isSignUp).value
    ensures !o.Rejected? && isSignUp ==> o == SignUpOutcome(first, reply, retry)
    ensures !o.Rejected? && !isSignUp ==> o == SignInOutcome(first)
  {
    var v := Validate(email, password, confirm, isSignUp);
    if v.Some? then Rejected(v.value)
    else if isSignUp then SignUpOutcome(first, reply, retry)
    else SignInOutcome(first)
  }

  /** A refused submit does not depend on any reply of the service: no request is made. */
  lemma RejectionPrecedesRequests(email: string, password: string, confirm: string, isSignUp: bool,
                                  first: SignInReply, reply: SignUpReply, retry: SignInReply,
                                  first': SignInReply, reply': SignUpReply, retry': SignInReply)
    requires Validate(email, password, confirm, isSignUp).Some?
    ensures SubmitOutcome(email, password, confirm, isSignUp, first, reply, retry)
         == SubmitOutcome(email, password, confirm, isSignUp, first', reply', retry')
  {
  }

  /** The form's state. */
  class LoginState {
    var email: string
    var password: string
    var confirmPassword: string
    var isLoading: bool
    var isSignUp: bool

    constructor()
      ensures email == "" && password == "" && confirmPassword == "" && !isLoading && !isSignUp
    {
      email := "";
      password := "";
      confirmPassword := "";
      isLoading := false;
      isSignUp := false;
    }

    /** The mode switch (disabled while loading): flips the mode and clears the confirmation. */
    method ToggleMode()
      requires !isLoading
      modifies this
      ensures isSignUp == !old(isSignUp) && confirmPassword == ""
      ensures email == old(email) && password == old(password) && isLoading == old(isLoading)
    {
      isSignUp := !isSignUp;
      confirmPassword := "";
    }

    /** handleSubmit. `wentBusy` tells whether isLoading was raised: only when every check
        passed; it is lowered again before the submit ends. */
    method Submit(first: SignInReply, reply: SignUpReply, retry: SignInReply) returns (outcome: Outcome, wentBusy: bool)
      modifies this
      ensures outcome == SubmitOutcome(old(email), old(password), old(confirmPassword), old(isSignUp), first, reply, retry)
      ensures wentBusy <==> Validate(old(email), old(password), old(confirmPassword), old(isSignUp)).None?
      ensures isLoading == (if wentBusy then false else old(isLoading))
      ensures email == old(email) && password == old(password) && confirmPassword == old(confirmPassword)
      ensures isSignUp == old(isSignUp)
    {
      wentBusy := false;
      if !IsValidEmail(email) {
        return Rejected(InvalidEmail), false;
      }
      if isSignUp {
        if |password| < 6 {
          return Rejected(PasswordTooShort), false;
        }
        if password != confirmPassword {
          return Rejected(PasswordMismatch), false;
        }
      }
      isLoading := true;
      wentBusy := true;
      if isSignUp {
        outcome := SignUpOutcome(first, reply, retry);
      } else {
        outcome := SignInOutcome(first);
      }
      isLoading := false;
    }
  }
}
