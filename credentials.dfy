/**
 * The agent credential store (`AGENT_DATABASE`, username to plaintext
 * password) with the registration and login dialogs that use it.
 */
module Credentials {
  import opened Wrappers
  import opened Text

  /** Why `handle_registration` refused, one reason per warning it shows. */
  datatype RegistrationError = MissingField | PasswordMismatch | PasswordTooShort | UsernameTaken

  const MinPasswordLength: nat := 6

  /** The accounts the program starts with. */
  const InitialAccounts: map<string, string> := map["alice" := "pass123", "ben" := "pass456"]

  /**
   * The checks of `handle_registration`, in the order the code makes them; on
   * success the (stripped) username to store.
   */
  function CheckRegistration(accounts: map<string, string>, userText: string,
                             password: string, confirm: string): (r: Result<string, RegistrationError>)
    ensures r.Success? ==> r.value == Strip(userText) && r.value != [] && r.value !in accounts
    ensures r.Success? ==> password == confirm && |password| >= MinPasswordLength
  {
    var username := Strip(userText);
    if username == [] || password == [] || confirm == [] then Failure(MissingField)
    else if password != confirm then Failure(PasswordMismatch)
    else if |password| < MinPasswordLength then Failure(PasswordTooShort)
    else if username in accounts then Failure(UsernameTaken)
    else Success(username)
  }

  /** The accounts after a registration attempt. */
  function Register(accounts: map<string, string>, userText: string,
                    password: string, confirm: string): (after: map<string, string>)
    ensures forall u :: u in accounts ==> u in after && after[u] == accounts[u]
    ensures forall u :: u in after && u !in accounts ==> u == Strip(userText) && after[u] == password
  {
    match CheckRegistration(accounts, userText, password, confirm)
    case Success(username) => accounts[username := password]
    case Failure(_) => accounts
  }

  /**
   * Registration goes through exactly when the username is not blank, the
   * password is confirmed, is at least six characters long and the stripped
   * username is not taken.
   */
  lemma RegistrationAcceptedIff(accounts: map<string, string>, userText: string,
                                password: string, confirm: string)
    ensures CheckRegistration(accounts, userText, password, confirm).Success?
        <==> && !Blank(userText)
             && password == confirm
             && |password| >= MinPasswordLength
             && Strip(userText) !in accounts
  {
    StripEmptyIff(userText);
  }

  /**
   * A refused registration leaves the accounts as they were; an accepted one
   * adds exactly `username -> password` and keeps every other entry.
   */
  lemma RegisterAddsOneAccount(accounts: map<string, string>, userText: string,
                               password: string, confirm: string)
    ensures CheckRegistration(accounts, userText, password, confirm).Failure? ==>
      Register(accounts, userText, password, confirm) == accounts
    ensures CheckRegistration(accounts, userText, password, confirm).Success? ==>
      var after := Register(accounts, userText, password, confirm);
      && after.Keys == accounts.Keys + {Strip(userText)}
      && |after| == |accounts| + 1
      && after[Strip(userText)] == password
      && forall u :: u in accounts ==> after[u] == accounts[u]
  {
    var r := CheckRegistration(accounts, userText, password, confirm);
    if r.Success? {
      var after := Register(accounts, userText, password, confirm);
      assert after == accounts[r.value := password];
      assert after.Keys == accounts.Keys + {r.value};
    }
  }

  /** `handle_login`'s test: both fields filled and the stored password matches. */
  predicate CheckLogin(accounts: map<string, string>, username: string, password: string): (ok: bool)
    ensures ok ==> username in accounts && accounts[username] == password
  {
    username != [] && password != [] && username in accounts && accounts[username] == password
  }

  /** After registering, the agent can log in with the stored name and the password. */
  lemma RegisterThenLogin(accounts: map<string, string>, userText: string,
                          password: string, confirm: string)
    requires CheckRegistration(accounts, userText, password, confirm).Success?
    ensures CheckLogin(Register(accounts, userText, password, confirm), Strip(userText), password)
  {
  }

  /** Registering the same (stripped) name a second time is refused as taken. */
  lemma RegisterTwiceRefused(accounts: map<string, string>, userText: string, password: string,
                             confirm: string, userText2: string, password2: string, confirm2: string)
    requires CheckRegistration(accounts, userText, password, confirm).Success?
    requires Strip(userText2) == Strip(userText)
    requires password2 == confirm2 && |password2| >= MinPasswordLength
    ensures CheckRegistration(Register(accounts, userText, password, confirm),
                              userText2, password2, confirm2) == Failure(UsernameTaken)
  {
  }

  /** A login with another password than the stored one fails. */
  lemma LoginWrongPasswordFails(accounts: map<string, string>, username: string, password: string)
    requires username in accounts && accounts[username] != password
    ensures !CheckLogin(accounts, username, password)
  {
  }

  /** Every stored password is at least six characters long. */
  ghost predicate PasswordsLongEnough(accounts: map<string, string>)
  {
    forall u :: u in accounts ==> |accounts[u]| >= MinPasswordLength
  }

  /** The starting accounts meet the length rule and registration keeps it. */
  lemma PasswordRuleKept(accounts: map<string, string>, userText: string,
                         password: string, confirm: string)
    ensures PasswordsLongEnough(InitialAccounts)
    ensures PasswordsLongEnough(accounts) ==>
      PasswordsLongEnough(Register(accounts, userText, password, confirm))
  {
    InitialPasswordsLongEnough();
    var r := CheckRegistration(accounts, userText, password, confirm);
    if PasswordsLongEnough(accounts) && r.Success? {
      var after := Register(accounts, userText, password, confirm);
      RegisterAddsOneAccount(accounts, userText, password, confirm);
      forall u | u in after
        ensures |after[u]| >= MinPasswordLength
      {
        if u !in accounts {
          assert u == r.value;
        }
      }
    }
  }

  /** The two starting passwords are seven characters long. */
  lemma InitialPasswordsLongEnough()
    ensures PasswordsLongEnough(InitialAccounts)
  {
    assert |"pass123"| == 7 && |"pass456"| == 7;
  }

  /** The global `AGENT_DATABASE` dictionary. */
  class AgentDatabase {
    var accounts: map<string, string>

    constructor ()
      ensures accounts == InitialAccounts
    {
      accounts := InitialAccounts;
    }
  }

  /** `RegistrationDialog`: remembers the name it registered. */
  class RegistrationDialog {
    var registeredUsername: Option<string>

    constructor ()
      ensures registeredUsername == None
    {
      registeredUsername := None;
    }

    /**
     * `handle_registration`: the reason it refused, or the stored name; only
     * an accepted registration writes to the database and to the dialog.
     */
    method HandleRegistration(db: AgentDatabase, userText: string, password: string, confirm: string)
      returns (outcome: Result<string, RegistrationError>)
      modifies this, db
      ensures outcome == CheckRegistration(old(db.accounts), userText, password, confirm)
      ensures db.accounts == Register(old(db.accounts), userText, password, confirm)
      ensures registeredUsername == if outcome.Success? then Some(outcome.value) else old(registeredUsername)
    {
      var username := Strip(userText);
      if username == [] || password == [] || confirm == [] {
        return Failure(MissingField);
      }
      if password != confirm {
        return Failure(PasswordMismatch);
      }
      if |password| < MinPasswordLength {
        return Failure(PasswordTooShort);
      }
      if username in db.accounts {
        return Failure(UsernameTaken);
      }
      db.accounts := db.accounts[username := password];
      registeredUsername := Some(username);
      outcome := Success(username);
    }
  }

  /** `LoginDialog`: the name it accepted and how it was accepted. */
  class LoginDialog {
    var username: Option<string>
    var acceptedLogin: bool
    var acceptedRegistration: bool

    /** Whenever the dialog reports a login it also holds the name. */
    ghost predicate Valid()
      reads this
    {
      (acceptedLogin || acceptedRegistration) ==> username.Some?
    }

    constructor ()
      ensures Valid()
      ensures username == None && !acceptedLogin && !acceptedRegistration
    {
      username := None;
      acceptedLogin := false;
      acceptedRegistration := false;
    }

    /**
     * `get_login_info`: whether someone got in, and as whom; the window passes
     * the name on after a success, and there always is one then.
     */
    function LoginInfo(): (info: (bool, Option<string>))
      requires Valid()
      reads this
      ensures info.0 ==> info.1.Some?
    {
      (acceptedLogin || acceptedRegistration, username)
    }

    /**
     * `handle_login`: an exact lookup and compare; the dialog records the name
     * on success and is left alone otherwise. The database is only read.
     */
    method HandleLogin(db: AgentDatabase, userText: string, password: string) returns (ok: bool)
      requires Valid()
      modifies this
      ensures Valid()
      ensures ok == CheckLogin(db.accounts, userText, password)
      ensures ok ==> username == Some(userText) && acceptedLogin
      ensures !ok ==> username == old(username) && acceptedLogin == old(acceptedLogin)
      ensures acceptedRegistration == old(acceptedRegistration)
      ensures ok ==> LoginInfo() == (true, Some(userText))
    {
      if userText == [] || password == [] {
        return false;
      }
      if userText in db.accounts && db.accounts[userText] == password {
        username := Some(userText);
        acceptedLogin := true;
        return true;
      }
      return false;
    }

    /**
     * `open_registration_dialog` once the registration dialog has closed: it
     * was accepted exactly when it registered a name, which the login dialog
     * then takes over.
     */
    method OpenRegistrationDialog(reg: RegistrationDialog)
      requires Valid()
      modifies this
      ensures Valid()
      ensures reg.registeredUsername.Some? ==>
        acceptedRegistration && username == reg.registeredUsername && LoginInfo() == (true, username)
      ensures reg.registeredUsername.None? ==>
        acceptedRegistration == old(acceptedRegistration) && username == old(username)
      ensures acceptedLogin == old(acceptedLogin)
    {
      if reg.registeredUsername.Some? {
        acceptedRegistration := true;
        username := reg.registeredUsername;
      }
    }
  }
}
