/** User accounts: the stored user list, registration and sign-in.  Emails
    are compared after trimming and lower-casing, passwords after trimming. */
module Users {
  import opened Wrappers
  import opened Text

  datatype User = User(email: string, password: string, role: string, name: string)

  predicate ValidRole(role: string) {
    role == "student" || role == "teacher"
  }

  const InvalidInput := "Please provide name, email, password, and valid role."
  const AlreadyRegistered := "Email already registered."
  const RegisteredMessage := "Registered"

  /** The two accounts written to a fresh user file. */
  const DemoUsers: seq<User> := [
    User("student@example.com", "student123", "student", "Student Demo"),
    User("teacher@example.com", "teacher123", "teacher", "Teacher Demo")
  ]

  /** `email.strip().lower()`: the form in which emails are stored and compared. */
  function NormalizeEmail(email: string): (e: string)
    ensures |e| <= |email|
    ensures NoEdgeSpace(e)
    ensures Lower(e) == e
  {
    StripSpec(email);
    LowerKeepsSpace(Strip(email));
    Lower(Strip(email))
  }

  /** Normalising twice is normalising once, so a stored email signs in as typed. */
  lemma NormalizeEmailIdempotent(email: string)
    ensures NormalizeEmail(NormalizeEmail(email)) == NormalizeEmail(email)
  {
    var e := NormalizeEmail(email);
    StripSpec(e);
  }

  /** `any(u.get("email") == email for u in users)`. */
  predicate EmailTaken(users: seq<User>, email: string) {
    exists i :: 0 <= i < |users| && users[i].email == email
  }

  ghost predicate UniqueEmails(users: seq<User>) {
    forall i, j :: 0 <= i < j < |users| ==> users[i].email != users[j].email
  }

  /** The first stored user with this email and password, if any. */
  function FindUser(users: seq<User>, email: string, password: string): (r: Option<User>)
    ensures r.Some? ==> r.value in users && r.value.email == email && r.value.password == password
    ensures r.None? <==> forall i :: 0 <= i < |users| ==> !(users[i].email == email && users[i].password == password)
  {
    if users == [] then None
    else if users[0].email == email && users[0].password == password then Some(users[0])
    else
      assert forall i :: 1 <= i < |users| ==> users[i] == users[1..][i - 1];
      FindUser(users[1..], email, password)
  }

  datatype Reply = Reply(ok: bool, message: string, users: seq<User>)

  /** The answer of `register_user` and the user list it leaves behind. */
  function RegisterReply(users: seq<User>, name: string, email: string, password: string, role: string): (r: Reply)
    ensures r.ok <==> r.message == RegisteredMessage
    ensures r.ok <==> |r.users| == |users| + 1
    ensures users <= r.users
    ensures !r.ok ==> r.users == users
  {
    var e := NormalizeEmail(email);
    var p := Strip(password);
    if e == "" || p == "" || !ValidRole(role) then Reply(false, InvalidInput, users)
    else if EmailTaken(users, e) then Reply(false, AlreadyRegistered, users)
    else Reply(true, RegisteredMessage, users + [User(e, p, role, Strip(name))])
  }

  /** Registration fails exactly when an input is missing or the role is
      unknown, or when the email is taken; the message says which. */
  lemma RegisterOutcome(users: seq<User>, name: string, email: string, password: string, role: string)
    ensures var r := RegisterReply(users, name, email, password, role);
      var valid := NormalizeEmail(email) != "" && Strip(password) != "" && ValidRole(role);
      && (!valid ==> r.message == InvalidInput)
      && (valid && EmailTaken(users, NormalizeEmail(email)) ==> r.message == AlreadyRegistered)
      && (r.ok <==> valid && !EmailTaken(users, NormalizeEmail(email)))
  {
  }

  /** Registration never lets two accounts share an email. */
  lemma RegisterKeepsUnique(users: seq<User>, name: string, email: string, password: string, role: string)
    requires UniqueEmails(users)
    ensures UniqueEmails(RegisterReply(users, name, email, password, role).users)
  {
    var r := RegisterReply(users, name, email, password, role);
    if r.ok {
      var e := NormalizeEmail(email);
      assert !EmailTaken(users, e);
      assert r.users[|users|].email == e;
      forall i, j | 0 <= i < j < |r.users|
        ensures r.users[i].email != r.users[j].email
      {
        if j < |users| {
          assert r.users[i] == users[i] && r.users[j] == users[j];
        } else {
          assert r.users[i] == users[i];
        }
      }
    }
  }

  lemma {:induction false} FindUserAppended(users: seq<User>, u: User)
    requires !EmailTaken(users, u.email)
    ensures FindUser(users + [u], u.email, u.password) == Some(u)
  {
    if users != [] {
      assert (users + [u])[1..] == users[1..] + [u];
      assert !EmailTaken(users[1..], u.email) by {
        assert forall i :: 0 <= i < |users[1..]| ==> users[1..][i] == users[i + 1];
      }
      FindUserAppended(users[1..], u);
    }
  }

  /** A user who has just registered can sign in with the same email and
      password, however they are padded or (for the email) capitalised. */
  lemma SignInAfterRegister(users: seq<User>, name: string, email: string, password: string, role: string,
                            email2: string, password2: string)
    requires RegisterReply(users, name, email, password, role).ok
    requires NormalizeEmail(email2) == NormalizeEmail(email) && Strip(password2) == Strip(password)
    ensures FindUser(RegisterReply(users, name, email, password, role).users, NormalizeEmail(email2), Strip(password2))
         == Some(User(NormalizeEmail(email), Strip(password), role, Strip(name)))
  {
    FindUserAppended(users, User(NormalizeEmail(email), Strip(password), role, Strip(name)));
  }

  /** An account that signs in keeps signing in as the same user whatever is
      registered after it. */
  lemma {:induction false} FindUserStable(users: seq<User>, more: seq<User>, email: string, password: string)
    requires FindUser(users, email, password).Some?
    ensures FindUser(users + more, email, password) == FindUser(users, email, password)
  {
    if !(users[0].email == email && users[0].password == password) {
      assert (users + more)[1..] == users[1..] + more;
      FindUserStable(users[1..], more, email, password);
    }
  }

  /** The user file, read and rewritten by every registration. */
  class UserStore {
    var users: seq<User>

    /** A store whose file was missing starts with the demo accounts. */
    constructor ()
      ensures users == DemoUsers
      ensures UniqueEmails(users)
    {
      users := DemoUsers;
    }

    /** `register_user`: validates the input, refuses a taken email and
        otherwise appends the new account. */
    method Register(name: string, email: string, password: string, role: string) returns (ok: bool, message: string)
      modifies this
      ensures Reply(ok, message, users) == RegisterReply(old(users), name, email, password, role)
      ensures old(UniqueEmails(users)) ==> UniqueEmails(users)
    {
      var e := NormalizeEmail(email);
      var p := Strip(password);
      var n := Strip(name);
      if e == "" || p == "" || !ValidRole(role) {
        return false, InvalidInput;
      }
      if EmailTaken(users, e) {
        return false, AlreadyRegistered;
      }
      if UniqueEmails(users) {
        RegisterKeepsUnique(users, name, email, password, role);
      }
      users := users + [User(e, p, role, n)];
      return true, RegisteredMessage;
    }

    /** `authenticate_user`: the first stored user whose email and password
        match the normalised input. */
    method Authenticate(email: string, password: string) returns (r: Option<User>)
      ensures r == FindUser(users, NormalizeEmail(email), Strip(password))
    {
      var e := NormalizeEmail(email);
      var p := Strip(password);
      var i := 0;
      while i < |users|
        invariant 0 <= i <= |users|
        invariant FindUser(users[i..], e, p) == FindUser(users, e, p)
      {
        if users[i].email == e && users[i].password == p {
          return Some(users[i]);
        }
        assert users[i..][1..] == users[i + 1..];
        i := i + 1;
      }
      return None;
    }
  }
}
