/** The login screen and the role dispatch of project.cpp. The credentials
    file is the sequence of its whitespace-separated words, read as
    `user pass role` triples; the typed usernames and passwords are a
    parameter, one pair per attempt. The globals currentRole and currentUser
    become the returned Session. */
module Login {
  import opened Wrappers
  import opened LineCodec

  /** currentRole keeps 9 characters, currentUser 49 (their buffers hold 10 and 50). */
  const RoleMax: nat := 9
  const UserMax: nat := 49

  /** The number of login attempts. */
  const Attempts: nat := 3

  /** Who is logged in, and with which role. */
  datatype Session = Session(role: string, user: string)

  /** The session granted without a credentials file. */
  const Fallback := Session("ADMIN", "localadmin")

  // ---------------------------------------------------------------- credential lookup

  /** The triple starting at word `k` names this user and password. */
  predicate TripleMatches(words: seq<string>, k: nat, user: string, pass: string)
  {
    k + 3 <= |words| && words[k] == user && words[k + 1] == pass
  }

  /** The session the triple at word `k` grants: its role and user, cut to their buffers. */
  function SessionAt(words: seq<string>, k: nat): Session
    requires k + 3 <= |words|
  {
    Session(Truncated(words[k + 2], RoleMax), Truncated(words[k], UserMax))
  }

  /** The fscanf loop over the credentials file: the first complete triple,
      in file order, whose user and password match; a trailing incomplete
      triple is never read. */
  function Lookup(words: seq<string>, user: string, pass: string): (r: Option<Session>)
    ensures r.Some? ==> |r.value.role| <= RoleMax && |r.value.user| <= UserMax
    decreases |words|
  {
    if |words| < 3 then None
    else if words[0] == user && words[1] == pass then Some(SessionAt(words, 0))
    else Lookup(words[3..], user, pass)
  }

  /** The triple at word `k` is the first that matches. */
  predicate FirstMatchAt(words: seq<string>, k: nat, user: string, pass: string)
  {
    k % 3 == 0 && TripleMatches(words, k, user, pass) &&
    forall j :: 0 <= j < k && j % 3 == 0 ==> !TripleMatches(words, j, user, pass)
  }

  /** The lookup loop of loginSystem: reads three words at a time and stops
      at the first triple that matches. */
  method LookupCredentials(words: seq<string>, user: string, pass: string) returns (r: Option<Session>)
    ensures r == Lookup(words, user, pass)
  {
    var k := 0;
    while k + 3 <= |words|
      invariant k <= |words|
      invariant Lookup(words, user, pass) == Lookup(words[k..], user, pass)
    {
      if words[k] == user && words[k + 1] == pass {
        assert words[k..][2] == words[k + 2];
        return Some(SessionAt(words, k));
      }
      assert words[k..][3..] == words[k + 3..];
      k := k + 3;
    }
    return None;
  }

  /** The lookup grants the session of the first matching triple, and fails
      exactly when no triple matches. */
  lemma {:induction false} LookupFindsFirstMatch(words: seq<string>, user: string, pass: string)
    ensures Lookup(words, user, pass).None? <==>
      forall k :: 0 <= k && k % 3 == 0 ==> !TripleMatches(words, k, user, pass)
    ensures Lookup(words, user, pass).Some? ==>
      exists k :: FirstMatchAt(words, k, user, pass) && Lookup(words, user, pass) == Some(SessionAt(words, k))
    decreases |words|
  {
    if |words| >= 3 {
      if words[0] == user && words[1] == pass {
        assert FirstMatchAt(words, 0, user, pass);
      } else {
        var rest := words[3..];
        LookupFindsFirstMatch(rest, user, pass);
        forall k | 0 <= k && k % 3 == 0 && k + 3 <= |words|
          ensures TripleMatches(words, k, user, pass) <==> k > 0 && TripleMatches(rest, k - 3, user, pass)
        {
          if k > 0 {
            assert rest[k - 3] == words[k] && rest[k - 2] == words[k + 1];
          }
        }
        if Lookup(rest, user, pass).Some? {
          var k: nat :| FirstMatchAt(rest, k, user, pass) && Lookup(rest, user, pass) == Some(SessionAt(rest, k));
          assert rest[k + 2] == words[k + 5] && rest[k] == words[k + 3];
          assert SessionAt(rest, k) == SessionAt(words, k + 3);
          forall j | 0 <= j < k + 3 && j % 3 == 0 ensures !TripleMatches(words, j, user, pass) {
            if j > 0 {
              assert !TripleMatches(rest, j - 3, user, pass);
            }
          }
          assert FirstMatchAt(words, k + 3, user, pass);
        } else {
          forall k | 0 <= k && k % 3 == 0 ensures !TripleMatches(words, k, user, pass) {
            if k > 0 && k + 3 <= |words| {
              assert !TripleMatches(rest, k - 3, user, pass);
            }
          }
        }
      }
    }
  }

  // ---------------------------------------------------------------- the login loop

  /** What an attempt reads: the typed pair, or empty strings once input has ended. */
  function AttemptInput(inputs: seq<(string, string)>, n: nat): (string, string)
  {
    if n < |inputs| then inputs[n] else ("", "")
  }

  /** The outcome of the attempts from number `n` on: the credentials file is
      opened afresh at each; a missing file grants the fallback session; a
      matching triple grants its session; after the last attempt, failure. */
  function LoginFrom(cred: Option<seq<string>>, inputs: seq<(string, string)>, n: nat): (r: Option<Session>)
    ensures r.Some? ==> n < Attempts
    ensures r.Some? && cred.Some? ==> |r.value.role| <= RoleMax && |r.value.user| <= UserMax
    decreases Attempts - n
  {
    if n >= Attempts then None
    else if cred.None? then Some(Fallback)
    else
      var found := Lookup(cred.value, AttemptInput(inputs, n).0, AttemptInput(inputs, n).1);
      if found.Some? then found else LoginFrom(cred, inputs, n + 1)
  }

  /** loginSystem: counts the attempts down from three. */
  method LoginSystem(cred: Option<seq<string>>, inputs: seq<(string, string)>) returns (session: Option<Session>)
    ensures session == LoginFrom(cred, inputs, 0)
  {
    var attempts := Attempts;
    while attempts > 0
      invariant attempts <= Attempts
      invariant LoginFrom(cred, inputs, 0) == LoginFrom(cred, inputs, Attempts - attempts)
    {
      var typed := AttemptInput(inputs, Attempts - attempts);
      if cred.None? {
        return Some(Fallback);
      }
      var found := LookupCredentials(cred.value, typed.0, typed.1);
      if found.Some? {
        return found;
      }
      attempts := attempts - 1;
      if attempts == 0 {
        return None;
      }
    }
    return None;
  }

  /** Login succeeds with a credentials file only by the first matching
      triple of one of the three attempts, and fails exactly when no attempt
      names a triple. */
  lemma {:induction false} LoginGrantsListedTriple(words: seq<string>, inputs: seq<(string, string)>, n: nat)
    requires n <= Attempts
    ensures LoginFrom(Some(words), inputs, n).None? <==>
      forall a :: n <= a < Attempts ==> Lookup(words, AttemptInput(inputs, a).0, AttemptInput(inputs, a).1).None?
    ensures LoginFrom(Some(words), inputs, n).Some? ==>
      exists a, k :: n <= a < Attempts &&
        FirstMatchAt(words, k, AttemptInput(inputs, a).0, AttemptInput(inputs, a).1) &&
        LoginFrom(Some(words), inputs, n) == Some(SessionAt(words, k))
    decreases Attempts - n
  {
    if n < Attempts {
      var typed := AttemptInput(inputs, n);
      LookupFindsFirstMatch(words, typed.0, typed.1);
      if Lookup(words, typed.0, typed.1).None? {
        LoginGrantsListedTriple(words, inputs, n + 1);
      }
    }
  }

  /** Only the first three typed pairs matter. */
  lemma {:induction false} LoginReadsThreeAttempts(cred: Option<seq<string>>, inputs: seq<(string, string)>, n: nat)
    requires |inputs| >= Attempts && n <= Attempts
    ensures LoginFrom(cred, inputs, n) == LoginFrom(cred, inputs[..Attempts], n)
    decreases Attempts - n
  {
    if n < Attempts {
      assert AttemptInput(inputs, n) == AttemptInput(inputs[..Attempts], n);
      LoginReadsThreeAttempts(cred, inputs, n + 1);
    }
  }

  /** Without a credentials file every login gets the administrator role. */
  lemma MissingCredentialsGrantAdmin(inputs: seq<(string, string)>)
    ensures LoginFrom(None, inputs, 0) == Some(Session("ADMIN", "localadmin"))
  {
  }

  // ---------------------------------------------------------------- menus

  datatype Menu = AdminMenu | StaffMenu | GuestMenu

  datatype Operation = AddStudent | DisplayStudents | SearchStudent | UpdateStudent | DeleteStudent | Logout

  /** mainMenu: exactly "ADMIN" and exactly "STAFF" have their own menus;
      every other role, whatever its case, gets the guest menu. */
  function MainMenu(role: string): (m: Menu)
    ensures m != GuestMenu ==> role == "ADMIN" || role == "STAFF"
  {
    if role == "ADMIN" then AdminMenu
    else if role == "STAFF" then StaffMenu
    else GuestMenu
  }

  /** The switch of each menu: the operation a choice runs, or None for an
      invalid choice. */
  function Dispatch(menu: Menu, choice: int): (r: Option<Operation>)
    ensures r.Some? ==> 1 <= choice <= 6
    ensures r == Some(Logout) <==> choice == (match menu case AdminMenu => 6 case StaffMenu => 4 case GuestMenu => 3)
  {
    match menu
    case AdminMenu =>
      if choice == 1 then Some(AddStudent)
      else if choice == 2 then Some(DisplayStudents)
      else if choice == 3 then Some(SearchStudent)
      else if choice == 4 then Some(UpdateStudent)
      else if choice == 5 then Some(DeleteStudent)
      else if choice == 6 then Some(Logout)
      else None
    case StaffMenu =>
      if choice == 1 then Some(AddStudent)
      else if choice == 2 then Some(DisplayStudents)
      else if choice == 3 then Some(SearchStudent)
      else if choice == 4 then Some(Logout)
      else None
    case GuestMenu =>
      if choice == 1 then Some(DisplayStudents)
      else if choice == 2 then Some(SearchStudent)
      else if choice == 3 then Some(Logout)
      else None
  }

  /** Some choice of the role's menu runs the operation. */
  predicate Permits(role: string, op: Operation)
  {
    exists choice :: 1 <= choice <= 6 && Dispatch(MainMenu(role), choice) == Some(op)
  }

  /** The capability table: only ADMIN updates and deletes, ADMIN and STAFF
      add, and every role lists, searches and logs out. */
  lemma RolePermissions(role: string)
    ensures Permits(role, UpdateStudent) <==> role == "ADMIN"
    ensures Permits(role, DeleteStudent) <==> role == "ADMIN"
    ensures Permits(role, AddStudent) <==> role == "ADMIN" || role == "STAFF"
    ensures Permits(role, DisplayStudents) && Permits(role, SearchStudent) && Permits(role, Logout)
  {
    var menu := MainMenu(role);
    if menu == AdminMenu {
      assert Dispatch(menu, 1) == Some(AddStudent) && Dispatch(menu, 2) == Some(DisplayStudents);
      assert Dispatch(menu, 3) == Some(SearchStudent) && Dispatch(menu, 4) == Some(UpdateStudent);
      assert Dispatch(menu, 5) == Some(DeleteStudent) && Dispatch(menu, 6) == Some(Logout);
    } else if menu == StaffMenu {
      assert Dispatch(menu, 1) == Some(AddStudent) && Dispatch(menu, 2) == Some(DisplayStudents);
      assert Dispatch(menu, 3) == Some(SearchStudent) && Dispatch(menu, 4) == Some(Logout);
    } else {
      assert Dispatch(menu, 1) == Some(DisplayStudents) && Dispatch(menu, 2) == Some(SearchStudent);
      assert Dispatch(menu, 3) == Some(Logout);
    }
  }

  /** A role longer than nine characters is cut before the comparison:
      "ADMINISTRATOR" becomes "ADMINISTR" and gets the guest menu, and so
      does a role in another case. */
  lemma RoleComparedAfterTruncation()
    ensures Truncated("ADMINISTRATOR", RoleMax) == "ADMINISTR"
    ensures MainMenu(Truncated("ADMINISTRATOR", RoleMax)) == GuestMenu
    ensures MainMenu("admin") == GuestMenu
  {
    var t := Truncated("ADMINISTRATOR", RoleMax);
    assert |t| == 9;
    assert t == "ADMINISTR";
  }
}
