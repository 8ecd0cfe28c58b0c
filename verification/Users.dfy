/** The web users (src/web/authentication.c): a two-slot table in RAM and the
    copy of it that the settings store keeps in flash. */
module Users {
  import opened Text

  const MAX_USERS: nat := 2
  const MAX_USERNAME_LEN: nat := 32

  const ENOENT := 2
  const EIO := 5
  const EEXIST := 17
  const ENOSPC := 28
  const EPERM := 1
  const EINVAL := 22

  type Hash = seq<nat>

  /** SHA-256 as an unknown function of the password. */
  type Digest = string -> Hash

  /** An empty name marks a free slot. */
  datatype User = User(name: string, passHash: Hash)

  const NO_USER := User("", [])

  datatype UserList = UserList(changed: bool, user: seq<User>)

  datatype Store = Store(ram: UserList, flash: Option<UserList>)

  ghost predicate Sized(s: Store) {
    && |s.ram.user| == MAX_USERS
    && (s.flash.Some? ==> |s.flash.value.user| == MAX_USERS)
  }

  /** The bytes `strncpy` and the forced terminator leave of a name. */
  function Stored(name: string): (r: string)
    ensures r <= name && |r| < MAX_USERNAME_LEN
    ensures |r| < MAX_USERNAME_LEN - 1 ==> r == name
  {
    if |name| < MAX_USERNAME_LEN then name else name[..MAX_USERNAME_LEN - 1]
  }

  function Accepted(l: UserList, name: string, h: Hash): bool {
    exists i :: 0 <= i < |l.user| && l.user[i] == User(name, h)
  }

  /** The number of slots in use among the first `n`. */
  function Count(users: seq<User>, n: nat): nat
    requires n <= |users|
  {
    if n == 0 then 0 else Count(users, n - 1) + if users[n - 1].name != "" then 1 else 0
  }

  // ---- specification of the calls ----

  /** The first slot that ends the search of `add_web_user`. */
  function Slot(users: seq<User>, name: string, from: nat := 0): (i: nat)
    requires from <= |users|
    ensures from <= i <= |users|
    ensures i < |users| ==> users[i].name == name || users[i].name == ""
    ensures forall k :: from <= k < i ==> users[k].name != name && users[k].name != ""
    decreases |users| - from
  {
    if from == |users| || users[from].name == name || users[from].name == "" then from
    else Slot(users, name, from + 1)
  }

  /** The first slot holding exactly this name. */
  function Holder(users: seq<User>, name: string, from: nat := 0): (i: nat)
    requires from <= |users|
    ensures from <= i <= |users|
    ensures i < |users| ==> users[i].name == name
    ensures forall k :: from <= k < i ==> users[k].name != name
    decreases |users| - from
  {
    if from == |users| || users[from].name == name then from else Holder(users, name, from + 1)
  }

  /** `update_users`: refuses to save a list whose first slot is free. */
  function Update(s: Store, saveOk: bool): (Store, int)
    requires Sized(s)
  {
    if s.ram.user[0].name == "" then (s, -EINVAL)
    else if !saveOk then (s, -EIO)
    else (s.(flash := Some(s.ram)), 0)
  }

  function Init(s: Store, adminHash: Hash, loadOk: bool, saveOk: bool): Store
    requires Sized(s)
  {
    if loadOk && s.flash.Some? then s.(ram := s.flash.value) else
    var ram := UserList(false, s.ram.user[0 := User("admin", adminHash)]);
    Store(ram, if saveOk then Some(ram) else s.flash)
  }

  function Add(s: Store, name: string, hash: Option<Hash>, saveOk: bool): (Store, int)
    requires Sized(s)
  {
    var i := Slot(s.ram.user, name);
    if i == MAX_USERS then (s, -ENOSPC)
    else if s.ram.user[i].name == name then (s, -EEXIST)
    else if hash.None? then (s, -EIO)
    else
      var ram := s.ram.(user := s.ram.user[i := User(Stored(name), hash.value)]);
      var (s', rc) := Update(s.(ram := ram), saveOk);
      (s', if rc != 0 then -EIO else 0)
  }

  function Delete(s: Store, name: string, saveOk: bool): (Store, int)
    requires Sized(s)
  {
    var i := Holder(s.ram.user, name);
    if i == MAX_USERS then (s.(ram := s.ram.(changed := false)), -ENOENT)
    else if Count(s.ram.user, MAX_USERS) == 1 then (s.(ram := s.ram.(changed := false)), -EPERM)
    else
      var (s', rc) := Update(s.(ram := UserList(true, s.ram.user[i := NO_USER])), saveOk);
      (s', if rc != 0 then -EIO else 0)
  }

  // ---- the table as the firmware keeps it ----

  class UserTable {
    var changed: bool
    const user: array<User>
    var flash: Option<UserList>   // the settings entry
    const digest: Digest

    ghost predicate Valid()
      reads this
    {
      user.Length == MAX_USERS && (flash.Some? ==> |flash.value.user| == MAX_USERS)
    }

    ghost function Contents(): (s: Store)
      reads this, user
      requires Valid()
      ensures Sized(s)
    {
      Store(UserList(changed, user[..]), flash)
    }

    /** The table at power-up: RAM cleared, flash as it was left. */
    constructor (flash: Option<UserList>, digest: Digest)
      requires flash.Some? ==> |flash.value.user| == MAX_USERS
      ensures Valid() && fresh(user) && this.digest == digest
      ensures Contents() == Store(UserList(false, [NO_USER, NO_USER]), flash)
    {
      user := new User[MAX_USERS](_ => NO_USER);
      changed, this.flash, this.digest := false, flash, digest;
      new;
      assert user[..] == [NO_USER, NO_USER];
    }

    method AuthenticationInit(loadOk: bool, saveOk: bool)
      requires Valid()
      modifies this, user
      ensures Valid()
      ensures Contents() == Init(old(Contents()), digest("pass"), loadOk, saveOk)
    {
      if loadOk && flash.Some? {
        changed := flash.value.changed;
        forall i | 0 <= i < user.Length {
          user[i] := flash.value.user[i];
        }
        assert user[..] == flash.value.user;
      } else {
        changed := false;
        user[0] := User("admin", digest("pass"));
        if saveOk {
          flash := Some(UserList(changed, user[..]));
        }
      }
    }

    method UpdateUsers(saveOk: bool) returns (rc: int)
      requires Valid()
      modifies `flash
      ensures Valid()
      ensures (Contents(), rc) == Update(old(Contents()), saveOk)
    {
      if user[0].name == "" {
        return -EINVAL;
      }
      if !saveOk {
        return -EIO;
      }
      flash := Some(UserList(changed, user[..]));
      return 0;
    }

    method CheckUserCredentials(name: string, password: string) returns (ok: bool)
      requires Valid()
      ensures ok == Accepted(Contents().ram, name, digest(password))
    {
      var i := 0;
      while i < MAX_USERS
        invariant i <= MAX_USERS
        invariant forall k :: 0 <= k < i ==> user[k] != User(name, digest(password))
      {
        if user[i].name == name && user[i].passHash == digest(password) {
          assert Contents().ram.user[i] == User(name, digest(password));
          return true;
        }
        i := i + 1;
      }
      return false;
    }

    /** `hashOk` is the outcome of the hash library call. */
    method AddWebUser(name: string, password: string, hashOk: bool, saveOk: bool) returns (rc: int)
      requires Valid()
      modifies this, user
      ensures Valid()
      ensures (Contents(), rc) == Add(old(Contents()), name, if hashOk then Some(digest(password)) else None, saveOk)
    {
      var added := false;
      var i := 0;
      while i < MAX_USERS && !added
        invariant i <= MAX_USERS
        invariant Valid() && changed == old(changed) && flash == old(flash)
        invariant !added ==> user[..] == old(user[..]) && Slot(user[..], name) >= i
        invariant added ==>
          && hashOk && i < MAX_USERS && Slot(old(user[..]), name) == i && old(user[i].name) != name
          && user[..] == old(user[..])[i := User(Stored(name), digest(password))]
        decreases MAX_USERS - i, !added
      {
        if user[i].name == name {
          assert Slot(user[..], name) == i;
          return -EEXIST;
        }
        if user[i].name == "" {
          assert Slot(user[..], name) == i;
          if !hashOk {
            return -EIO;
          }
          user[i] := User(Stored(name), digest(password));
          added := true;
        } else {
          i := i + 1;
        }
      }
      if !added {
        return -ENOSPC;
      }
      rc := UpdateUsers(saveOk);
      if rc != 0 {
        return -EIO;
      }
    }

    method DeleteWebUser(name: string, saveOk: bool) returns (rc: int)
      requires Valid()
      modifies this, user
      ensures Valid()
      ensures (Contents(), rc) == Delete(old(Contents()), name, saveOk)
    {
      changed := false;
      var numUsers := 0;
      var i := 0;
      while i < MAX_USERS
        invariant i <= MAX_USERS && Valid() && changed == false && flash == old(flash)
        invariant user[..] == old(user[..])
        invariant numUsers == Count(user[..], i)
      {
        if user[i].name != "" {
          numUsers := numUsers + 1;
        }
        i := i + 1;
      }
      i := 0;
      while i < MAX_USERS && !changed
        invariant i <= MAX_USERS && Valid() && flash == old(flash)
        invariant !changed ==> user[..] == old(user[..]) && Holder(user[..], name) >= i
        invariant changed ==>
          && numUsers != 1 && i < MAX_USERS && Holder(old(user[..]), name) == i
          && user[..] == old(user[..])[i := NO_USER]
        decreases MAX_USERS - i, !changed
      {
        if user[i].name == name {
          assert Holder(user[..], name) == i;
          if numUsers == 1 {
            return -EPERM;
          }
          user[i] := NO_USER;
          changed := true;
        } else {
          i := i + 1;
        }
      }
      if changed {
        rc := UpdateUsers(saveOk);
        if rc != 0 {
          return -EIO;
        }
      } else {
        return -ENOENT;
      }
      return 0;
    }
  }

  /** The outcomes of adding, for every name, hash outcome and save outcome: the
      first slot that is free or holds the name decides; a failed hash changes
      nothing, a failed save changes RAM only, and nobody is lost. */
  lemma AddOutcome(s: Store, name: string, hash: Option<Hash>, saveOk: bool)
    requires Sized(s)
    ensures var u := s.ram.user; var (s', rc) := Add(s, name, hash, saveOk);
      && (rc == -ENOSPC <==> forall i :: 0 <= i < MAX_USERS ==> u[i].name != name && u[i].name != "")
      && (rc == -EEXIST <==> u[0].name == name || (u[0].name != "" && u[1].name == name))
      && (rc == 0 || rc == -EIO || rc == -ENOSPC || rc == -EEXIST)
      && (rc == 0 ==> hash.Some? && saveOk && s'.flash == Some(s'.ram))
      && (rc == -EIO ==> (hash.None? || !saveOk) && s'.flash == s.flash)
      && (if hash.Some? && (rc == 0 || rc == -EIO) then Accepted(s'.ram, Stored(name), hash.value) else s' == s)
      && (forall v: User :: v.name != "" && v in u ==> v in s'.ram.user)
      && s'.ram.changed == s.ram.changed
  {
    var i := Slot(s.ram.user, name);
    var (s', rc) := Add(s, name, hash, saveOk);
    if i < MAX_USERS && s.ram.user[i].name != name && hash.Some? {
      assert name != "" && Stored(name) != "";
      assert s'.ram.user[i] == User(Stored(name), hash.value);
    }
    forall v: User | v.name != "" && v in s.ram.user ensures v in s'.ram.user {
      var k :| 0 <= k < MAX_USERS && s.ram.user[k] == v;
      assert s'.ram.user[k] == v;
    }
  }

  /** The outcomes of deleting: an unknown name and the last user are refused and
      nobody is lost; otherwise exactly the first holder of the name goes. */
  lemma DeleteOutcome(s: Store, name: string, saveOk: bool)
    requires Inv(s) && name != ""
    ensures var u := s.ram.user; var (s', rc) := Delete(s, name, saveOk);
      && (rc == -ENOENT <==> forall i :: 0 <= i < MAX_USERS ==> u[i].name != name)
      && (rc == -EPERM <==> (u[0].name == name && u[1].name == "") || (u[0].name == "" && u[1].name == name))
      && (rc == -ENOENT || rc == -EPERM ==> s'.ram.user == u && s'.flash == s.flash)
      && (rc == 0 || rc == -EIO ==>
            (u[0].name == name && s'.ram.user == [NO_USER, u[1]])
            || (u[0].name != name && u[1].name == name && s'.ram.user == [u[0], NO_USER]))
      && s'.ram.changed == (rc == 0 || rc == -EIO)
  {
    CountTwo(s.ram.user);
    var u := s.ram.user;
    assert u == [u[0], u[1]];
  }

  /** Saving: a list whose first slot is free is refused, and flash changes
      exactly when the result is 0. */
  lemma UpdateOutcome(s: Store, saveOk: bool)
    requires Sized(s)
    ensures var (s', rc) := Update(s, saveOk);
      && (rc == -EINVAL <==> s.ram.user[0].name == "")
      && (rc == -EIO <==> s.ram.user[0].name != "" && !saveOk)
      && (rc == 0 <==> s.ram.user[0].name != "" && saveOk)
      && s'.ram == s.ram && s'.flash == if rc == 0 then Some(s.ram) else s.flash
  {
  }

  /** With nothing in flash the first start lets the default user in, and with
      something there the stored list is what counts. Without a loaded list only
      the first slot is overwritten, and the result is stored if that works. */
  lemma BootOutcome(s: Store, adminHash: Hash, loadOk: bool, saveOk: bool)
    requires Sized(s)
    ensures var s' := Init(s, adminHash, loadOk, saveOk);
      && (s.flash.None? ==> Accepted(s'.ram, "admin", adminHash))
      && (s.flash.Some? && loadOk ==> s'.ram == s.flash.value && s'.flash == s.flash)
      && (s.flash.None? || !loadOk ==>
            && s'.ram == UserList(false, [User("admin", adminHash), s.ram.user[1]])
            && s'.flash == if saveOk then Some(s'.ram) else s.flash)
  {
    assert s.flash.None? ==> Init(s, adminHash, loadOk, saveOk).ram.user[0] == User("admin", adminHash);
    assert s.ram.user == [s.ram.user[0], s.ram.user[1]];
  }

  // ---- whole runs ----

  /** A power-up, and the initialisation that runs again, over what RAM holds,
      whenever the device gets an address (src/main.c). */
  datatype Call =
    | Boot(adminHash: Hash, loadOk: bool, saveOk: bool)
    | ReInit(adminHash: Hash, loadOk: bool, saveOk: bool)
    | AddUser(name: string, hash: Option<Hash>, saveOk: bool)
    | DeleteUser(name: string, saveOk: bool)

  predicate Initialises(c: Call) {
    c.Boot? || c.ReInit?
  }

  /** A call's effect and its return code; a power-up clears RAM first. */
  function Step(s: Store, c: Call): (r: (Store, int))
    requires Sized(s)
    ensures Sized(r.0)
  {
    match c
    case Boot(adminHash, loadOk, saveOk) =>
      (Init(s.(ram := UserList(false, [NO_USER, NO_USER])), adminHash, loadOk, saveOk), 0)
    case ReInit(adminHash, loadOk, saveOk) => (Init(s, adminHash, loadOk, saveOk), 0)
    case AddUser(name, hash, saveOk) => Add(s, name, hash, saveOk)
    case DeleteUser(name, saveOk) => Delete(s, name, saveOk)
  }

  function Run(s: Store, calls: seq<Call>): (r: Store)
    requires Sized(s)
    ensures Sized(r)
    decreases |calls|
  {
    if calls == [] then s else Run(Step(s, calls[0]).0, calls[1..])
  }

  /** What is in flash can be booted from. */
  ghost predicate FlashUsable(s: Store) {
    s.flash.Some? ==> |s.flash.value.user| > 0 && s.flash.value.user[0].name != ""
  }

  ghost predicate Inv(s: Store) {
    && Sized(s) && FlashUsable(s)
    && (exists i :: 0 <= i < MAX_USERS && s.ram.user[i].name != "")
  }

  lemma CountTwo(users: seq<User>)
    requires |users| == MAX_USERS
    ensures Count(users, MAX_USERS) == (if users[0].name != "" then 1 else 0) + (if users[1].name != "" then 1 else 0)
  {
    assert Count(users, 1) == Count(users, 0) + if users[0].name != "" then 1 else 0;
  }

  /** No call leaves RAM without a user or flash without a first one, and
      success means that flash is up to date. */
  lemma StepKeeps(s: Store, c: Call)
    requires Sized(s) && FlashUsable(s) && (Initialises(c) || Inv(s))
    ensures var (s', rc) := Step(s, c);
      && Inv(s')
      && (rc == 0 && !Initialises(c) ==> s'.flash == Some(s'.ram))
      && (rc != 0 ==> s'.flash == s.flash)
  {
    CountTwo(s.ram.user);
    var (s', rc) := Step(s, c);
    assert s'.ram.user[0].name != "" || s'.ram.user[1].name != "";
  }

  /** In every run that begins with an initialisation, over any usable flash
      content. */
  lemma {:induction false} RunKeeps(s: Store, calls: seq<Call>)
    requires Sized(s) && FlashUsable(s)
    requires Inv(s) || (calls != [] && Initialises(calls[0]))
    ensures Inv(Run(s, calls))
    decreases |calls|
  {
    if calls != [] {
      StepKeeps(s, calls[0]);
      RunKeeps(Step(s, calls[0]).0, calls[1..]);
    }
  }

  /** These credentials sit in the same slot of RAM and of flash. */
  ghost predicate Durable(s: Store, u: User) {
    && Sized(s) && s.flash.Some?
    && exists i :: 0 <= i < MAX_USERS && s.ram.user[i] == u && s.flash.value.user[i] == u
  }

  /** Not a deletion of this name, and no initialisation that fails to load. */
  predicate Spares(c: Call, name: string) {
    && (c.DeleteUser? ==> c.name != name)
    && (Initialises(c) ==> c.loadOk)
  }

  lemma DurableStays(s: Store, c: Call, u: User)
    requires Inv(s) && Durable(s, u) && u.name != ""
    requires Spares(c, u.name)
    ensures Durable(Step(s, c).0, u)
  {
    var i :| 0 <= i < MAX_USERS && s.ram.user[i] == u && s.flash.value.user[i] == u;
    var s' := Step(s, c).0;
    assert s'.flash.Some? && s'.ram.user[i] == u && s'.flash.value.user[i] == u;
  }

  lemma {:induction false} RunStaysDurable(s: Store, calls: seq<Call>, u: User)
    requires Inv(s) && Durable(s, u) && u.name != ""
    requires forall k :: 0 <= k < |calls| ==> Spares(calls[k], u.name)
    ensures Inv(Run(s, calls)) && Durable(Run(s, calls), u)
    decreases |calls|
  {
    if calls != [] {
      DurableStays(s, calls[0], u);
      StepKeeps(s, calls[0]);
      RunStaysDurable(Step(s, calls[0]).0, calls[1..], u);
    }
  }

  /** Credentials whose addition was reported as done keep being accepted until
      that name is deleted, whatever other calls, failed saves and
      initialisations from flash follow. */
  lemma AddedStaysAccepted(s: Store, c: Call, calls: seq<Call>)
    requires Inv(s) && c.AddUser? && c.hash.Some? && |c.name| < MAX_USERNAME_LEN
    requires Step(s, c).1 == 0
    requires forall k :: 0 <= k < |calls| ==> Spares(calls[k], c.name)
    ensures Accepted(Run(Step(s, c).0, calls).ram, c.name, c.hash.value)
  {
    AddedIsDurable(s, c);
    StepKeeps(s, c);
    RunStaysDurable(Step(s, c).0, calls, User(c.name, c.hash.value));
  }

  lemma AddedIsDurable(s: Store, c: Call)
    requires Inv(s) && c.AddUser? && c.hash.Some? && |c.name| < MAX_USERNAME_LEN
    requires Step(s, c).1 == 0
    ensures Durable(Step(s, c).0, User(c.name, c.hash.value)) && c.name != ""
  {
    var s' := Step(s, c).0;
    var i := Slot(s.ram.user, c.name);
    assert s'.ram.user[i] == User(c.name, c.hash.value) && s'.flash.value.user[i] == s'.ram.user[i];
  }

  /** What the next initialisation makes of credentials that RAM accepts and
      flash holds: they stay exactly when the load succeeds, when they are the
      default ones, or when RAM was not cleared and has them in the second slot.
      A power-up whose load fails leaves the default credentials alone. */
  lemma InitialisationKeepsIff(s: Store, c: Call, u: User)
    requires Inv(s) && Durable(s, u) && u.name != "" && Initialises(c)
    ensures Accepted(Step(s, c).0.ram, u.name, u.passHash)
       <==> c.loadOk || u == User("admin", c.adminHash) || (c.ReInit? && s.ram.user[1] == u)
    ensures c.Boot? && !c.loadOk ==> Step(s, c).0.ram == UserList(false, [User("admin", c.adminHash), NO_USER])
  {
    var r := Step(s, c).0.ram.user;
    assert r == [r[0], r[1]];
    assert Accepted(Step(s, c).0.ram, u.name, u.passHash) <==> r[0] == u || r[1] == u;
  }

  /** The two together: after any such run, one more initialisation. */
  lemma AddedSurvivesInitialisationIff(s: Store, c: Call, calls: seq<Call>, last: Call)
    requires Inv(s) && c.AddUser? && c.hash.Some? && |c.name| < MAX_USERNAME_LEN
    requires Step(s, c).1 == 0 && Initialises(last)
    requires forall k :: 0 <= k < |calls| ==> Spares(calls[k], c.name)
    ensures var u, s' := User(c.name, c.hash.value), Run(Step(s, c).0, calls);
      Accepted(Step(s', last).0.ram, c.name, c.hash.value)
      <==> last.loadOk || u == User("admin", last.adminHash) || (last.ReInit? && s'.ram.user[1] == u)
  {
    AddedIsDurable(s, c);
    StepKeeps(s, c);
    var u := User(c.name, c.hash.value);
    RunStaysDurable(Step(s, c).0, calls, u);
    InitialisationKeepsIff(Run(Step(s, c).0, calls), last, u);
  }

  ghost predicate UniqueNames(l: UserList) {
    forall i, j :: 0 <= i < j < |l.user| && l.user[i].name != "" ==> l.user[i].name != l.user[j].name
  }

  /** With unique names only one password is right. */
  lemma OnlyOnePassword(l: UserList, name: string, h: Hash, other: Hash)
    requires UniqueNames(l) && name != "" && Accepted(l, name, h) && other != h
    ensures !Accepted(l, name, other)
  {
    var i :| 0 <= i < |l.user| && l.user[i] == User(name, h);
    forall j | 0 <= j < |l.user| ensures l.user[j] != User(name, other) {
      assert i < j ==> l.user[i].name != l.user[j].name;
      assert j < i && l.user[j].name != "" ==> l.user[j].name != l.user[i].name;
    }
  }

  /** The duplicate check stops at the first free slot and compares the name as
      given with names as stored: adding keeps the names unique unless the first
      slot is free and the second one holds the name as it will be stored, or the
      second is free and the first one holds what a too long name is cut to. */
  lemma AddKeepsNamesUniqueIff(s: Store, name: string, h: Hash, saveOk: bool)
    requires Inv(s) && UniqueNames(s.ram) && name != ""
    ensures var u := s.ram.user;
      UniqueNames(Add(s, name, Some(h), saveOk).0.ram)
      <==> && !(u[0].name == "" && u[1].name == Stored(name))
           && !(u[1].name == "" && u[0].name == Stored(name) != name)
  {
    var r := Add(s, name, Some(h), saveOk).0.ram;
    assert UniqueNames(r) <==> (r.user[0].name != "" ==> r.user[0].name != r.user[1].name);
  }

  /** A deletion that RAM carries out, for any state of RAM and flash: it is
      reported as done exactly when the slot is not the first and the save
      succeeds, and the name is still gone after the next power-up exactly when
      that start loads the list and either the deletion was saved or flash never
      held the name; without a loaded list only the default user exists. */
  lemma DeletionIsDurableIff(s: Store, name: string, saveOk: bool, c: Call)
    requires Sized(s) && name != "" && c.Boot?
    requires Holder(s.ram.user, name) < MAX_USERS && Count(s.ram.user, MAX_USERS) == 2
    ensures var (s', rc) := Delete(s, name, saveOk);
      && (Holder(s'.ram.user, name) == MAX_USERS <==> !(s.ram.user[0].name == name && s.ram.user[1].name == name))
      && (rc == 0 <==> Holder(s.ram.user, name) != 0 && saveOk)
      && (Holder(Step(s', c).0.ram.user, name) == MAX_USERS
          <==> (c.loadOk && Holder(s.ram.user, name) != 0 && saveOk)
               || if c.loadOk && s.flash.Some? then Holder(s.flash.value.user, name) == MAX_USERS else name != "admin")
  {
    CountTwo(s.ram.user);
  }

  /** The first user comes back: RAM has lost it, flash has not. */
  lemma DeletedFirstUserReturns(adminHash: Hash, h: Hash)
    ensures var l := UserList(false, [User("admin", adminHash), User("bob", h)]);
            var (s, rc) := Delete(Store(l, Some(l)), "admin", true);
      && rc == -EIO && Holder(s.ram.user, "admin") == MAX_USERS
      && Accepted(Step(s, Boot(adminHash, true, true)).0.ram, "admin", adminHash)
  {
    var l := UserList(false, [User("admin", adminHash), User("bob", h)]);
    CountTwo(l.user);
    assert l.user[0] == User("admin", adminHash);
  }

  /** A user that was never saved stays away although deleting it failed. */
  lemma DeletedUnsavedUserStaysAway(adminHash: Hash, h: Hash)
    ensures var l := UserList(false, [User("admin", adminHash), NO_USER]);
            var (s, rc) := Step(Store(l, Some(l)), AddUser("bob", Some(h), false));
            var (s', rc') := Step(s, DeleteUser("bob", false));
      && rc == -EIO && Accepted(s.ram, "bob", h) && rc' == -EIO
      && Holder(Step(s', Boot(adminHash, true, true)).0.ram.user, "bob") == MAX_USERS
  {
    var l := UserList(false, [User("admin", adminHash), NO_USER]);
    var s := Step(Store(l, Some(l)), AddUser("bob", Some(h), false)).0;
    assert Slot(l.user, "bob") == 1;
    assert s.ram.user[1] == User("bob", h);
    CountTwo(s.ram.user);
  }
}
