/** Linux `get_users` (src/host/sys/linux/users.rs): the names of the
    `USER_PROCESS` records of `/var/run/utmp`, in file order. */
module Users {
  import opened Base
  import opened Lib

  const USER_PROCESS: int := 7
  const UT_NAMESIZE: nat := 32

  /** The 32-byte `ut_user` field. */
  type NameField = s: Bytes | |s| == UT_NAMESIZE witness seq(UT_NAMESIZE, _ => NUL)

  /** One `utmp` record as far as the filter reads it: the type tag, the
      `ut_user` field, and the bytes that follow `ut_user` in the record
      (`ut_host` first, then the remaining fields). */
  datatype Utmp = Utmp(utType: int, user: NameField, following: Bytes)

  /** How the name is decoded from the record. `CString` is the source:
      `to_str` on the field's address, which reads on past the field when
      the field has no NUL. `Bounded` stops at the end of the field. */
  datatype Decoding = CString | Bounded

  /** A record the decoding can read without running off the record. */
  predicate Readable(d: Decoding, r: Utmp) {
    d == CString ==> NUL in r.user + r.following
  }

  /** The filter: a user-process record whose name field is not empty. */
  predicate IsLogin(r: Utmp) {
    r.user[0] != NUL && r.utType == USER_PROCESS
  }

  /** The bytes of the name field up to its first NUL, or all of it. */
  function FieldPrefix(user: Bytes): (s: Bytes)
    ensures |s| <= |user| && s == user[..|s|]
    ensures NUL !in s
    ensures |s| < |user| ==> user[|s|] == NUL
  {
    if |user| == 0 || user[0] == NUL then []
    else [user[0]] + FieldPrefix(user[1..])
  }

  /** What `to_str` reads from the start of `ut_user`: up to the first NUL
      of the record, or, when the record holds none, up to its end (the
      read past the record is not modelled). */
  function CStringAt(r: Utmp): (s: Bytes)
    ensures |s| <= |r.user + r.following| && s == (r.user + r.following)[..|s|]
    ensures NUL !in s
    ensures |s| < |r.user + r.following| ==> (r.user + r.following)[|s|] == NUL
  {
    var mem := r.user + r.following;
    if NUL in mem then ToStr(mem) else mem
  }

  /** The pushed name: `to_str(...).trim_matches('\0')`, or the bounded
      decoding. The trim never removes anything: what `to_str` returns
      already stops before the first NUL. */
  function UserName(d: Decoding, r: Utmp): (name: Bytes)
    ensures NUL !in name
    ensures d == CString ==> name == CStringAt(r)
  {
    if d == CString then
      TrimNulNoNul(CStringAt(r));
      TrimNul(CStringAt(r))
    else FieldPrefix(r.user)
  }

  /** The names of the logins among `records`, in order, repeats kept. */
  function Logins(d: Decoding, records: seq<Utmp>): (names: seq<Bytes>)
    ensures |names| <= |records|
  {
    if |records| == 0 then []
    else
      var rest := Logins(d, records[1..]);
      if IsLogin(records[0]) then [UserName(d, records[0])] + rest else rest
  }

  /** `get_users`: an error opening the file is returned as is; otherwise
      each record read is filtered and its name pushed. The records are the
      whole records `read` delivered before returning 0. */
  method GetUsers(d: Decoding, openError: Option<IoError>, records: seq<Utmp>) returns (r: Result<seq<Bytes>>)
    ensures openError.Some? ==> r == Err(openError.value)
    ensures openError.None? ==> r == Ok(Logins(d, records))
  {
    if openError.Some? {
      return Err(openError.value);
    }
    var users: seq<Bytes> := [];
    var i := 0;
    while i < |records|
      invariant 0 <= i <= |records|
      invariant users + Logins(d, records[i..]) == Logins(d, records)
    {
      var rec := records[i];
      LoginsStep(d, records, i, users);
      if rec.user[0] != NUL && rec.utType == USER_PROCESS {
        users := users + [UserName(d, rec)];
      }
      i := i + 1;
    }
    assert records[|records|..] == [];
    assert users + [] == users;
    return Ok(users);
  }

  /** One step of `Logins` on a suffix of `records`. */
  lemma LoginsFrom(d: Decoding, records: seq<Utmp>, i: nat)
    requires i < |records|
    ensures Logins(d, records[i..]) ==
              (if IsLogin(records[i]) then [UserName(d, records[i])] else []) + Logins(d, records[i + 1..])
  {
    assert records[i..][0] == records[i];
    assert records[i..][1..] == records[i + 1..];
  }

  /** The loop's step: the names found so far, extended by the next
      record's name when it is a login, still prefix the names of the file. */
  lemma LoginsStep(d: Decoding, records: seq<Utmp>, i: nat, users: seq<Bytes>)
    requires i < |records|
    requires users + Logins(d, records[i..]) == Logins(d, records)
    ensures (users + (if IsLogin(records[i]) then [UserName(d, records[i])] else [])) + Logins(d, records[i + 1..])
            == Logins(d, records)
  {
    LoginsFrom(d, records, i);
    var step := if IsLogin(records[i]) then [UserName(d, records[i])] else [];
    ConcatAssociative(users, step, Logins(d, records[i + 1..]));
  }

  lemma ConcatAssociative(a: seq<Bytes>, b: seq<Bytes>, c: seq<Bytes>)
    ensures (a + b) + c == a + (b + c)
  {
  }

  /** `Logins` distributes over concatenation: the names of a file are the
      names of its first part followed by the names of its second part. */
  lemma {:induction false} LoginsAppend(d: Decoding, a: seq<Utmp>, b: seq<Utmp>)
    ensures Logins(d, a + b) == Logins(d, a) + Logins(d, b)
  {
    if |a| == 0 {
      assert a + b == b;
    } else {
      var ab := a + b;
      assert ab[0] == a[0];
      assert ab[1..] == a[1..] + b;
      LoginsAppend(d, a[1..], b);
    }
  }

  /** One record contributes its name exactly when it passes the filter. */
  lemma OneRecord(d: Decoding, r: Utmp)
    ensures IsLogin(r) ==> Logins(d, [r]) == [UserName(d, r)]
    ensures !IsLogin(r) ==> Logins(d, [r]) == []
  {
    assert [r][1..] == [];
  }

  /** No deduplication: the same login twice gives its name twice. */
  lemma RepeatedLoginsRepeated(d: Decoding, r: Utmp)
    requires IsLogin(r)
    ensures Logins(d, [r, r]) == [UserName(d, r), UserName(d, r)]
  {
    assert [r, r][1..] == [r];
    OneRecord(d, r);
  }

  /** Every name is non-empty and holds no NUL. */
  lemma {:induction false} NamesNonEmptyWithoutNul(d: Decoding, records: seq<Utmp>)
    ensures forall k :: 0 <= k < |Logins(d, records)| ==>
              |Logins(d, records)[k]| > 0 && NUL !in Logins(d, records)[k]
  {
    if |records| > 0 {
      NamesNonEmptyWithoutNul(d, records[1..]);
      if IsLogin(records[0]) {
        NameNonEmptyWithoutNul(d, records[0]);
      }
    }
  }

  /** The name of one login is non-empty and holds no NUL. */
  lemma NameNonEmptyWithoutNul(d: Decoding, r: Utmp)
    requires IsLogin(r)
    ensures |UserName(d, r)| > 0 && NUL !in UserName(d, r)
  {
    if d == CString {
      var mem := r.user + r.following;
      var s := CStringAt(r);
      assert mem[0] == r.user[0];
      if NUL in mem {
        TrimNulNoNul(s);
      } else {
        TrimNulNoNul(mem);
      }
    }
  }

  /** A field without NUL is its own bounded decoding. */
  lemma FieldPrefixWhole(user: Bytes)
    requires NUL !in user
    ensures FieldPrefix(user) == user
  {
    forall j | 0 <= j < |user| ensures user[j] != NUL {
      assert user[j] in user;
    }
  }

  /** `to_str` on a field without NUL keeps reading into the bytes that
      follow it, up to their first NUL. */
  lemma CStringRunsOn(user: Bytes, following: Bytes, k: nat)
    requires NUL !in user
    requires k < |following| && following[k] == NUL && NUL !in following[..k]
    ensures ToStr(user + following) == user + following[..k]
  {
    var mem := user + following;
    var p := user + following[..k];
    assert mem[..|p|] == p;
    assert mem[|p|] == following[k];
    assert NUL !in p by {
      forall j | 0 <= j < |p| ensures p[j] != NUL {
        if j < |user| { assert p[j] == user[j]; assert user[j] in user; }
        else { assert p[j] == following[..k][j - |user|]; assert following[..k][j - |user|] in following[..k]; }
      }
    }
    ToStrIsFirstNulPrefix(mem, p);
  }

  /** When the name field holds a NUL, both decodings agree: the source is
      correct for every name shorter than the field. */
  lemma DecodingsAgreeWhenTerminated(r: Utmp)
    requires NUL in r.user
    ensures Readable(CString, r)
    ensures UserName(CString, r) == UserName(Bounded, r)
  {
    var p := FieldPrefix(r.user);
    var mem := r.user + r.following;
    assert NUL in mem by { var k :| 0 <= k < |r.user| && r.user[k] == NUL; assert mem[k] == NUL; }
    assert mem[..|p|] == p;
    ToStrIsFirstNulPrefix(mem, p);
    TrimNulNoNul(p);
  }

  /** A name that fills all 32 bytes of the field has no NUL, and `to_str`
      runs into `ut_host`: user "aaaa...a" (32 bytes) logged in from host
      "pc" is reported as that name followed by "pc". */
  lemma FullWidthNameReadsHost()
    ensures
      var name: Bytes := seq(UT_NAMESIZE, _ => 'a');
      var r := Utmp(USER_PROCESS, name, "pc\0");
      && Readable(CString, r) && IsLogin(r)
      && UserName(CString, r) == name + "pc"
      && UserName(Bounded, r) == name
  {
    var name: Bytes := seq(UT_NAMESIZE, _ => 'a');
    var following: Bytes := "pc\0";
    assert NUL !in name by {
      forall j | 0 <= j < |name| ensures name[j] != NUL { assert name[j] == 'a'; }
    }
    assert following[..2] == "pc";
    CStringRunsOn(name, following, 2);
    assert NUL in name + following by { assert (name + following)[|name| + 2] == NUL; }
    TrimNulNoNul(name + "pc");
    FieldPrefixWhole(name);
  }
}
