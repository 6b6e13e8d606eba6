/**
 The strings that getpwnam_r and getpwuid_r show (source/getpwnam_r.c, source/getpwuid_r.c), source by
 source: which variable, record or default each comes from, the bytes each takes, and their order.
 */
module PasswdBufferRules {
  import opened CStrings
  import opened HomePath
  import opened PasswdBuffer

  /** The environment has a SHELL that is not empty. */
  predicate ShellSet(env: Env) {
    env.shell.Some? && env.shell.value != ""
  }

  /** HOME is set, can be copied, and is a parent, a separator and a name. */
  ghost predicate HomeSet(env: Env, parent: string) {
    && env.home.Some? && env.home.value != "" && env.dupOk
    && exists sep, leaf, trail :: Shape(env.home.value, parent, sep, leaf, trail)
  }

  ghost predicate HomeUnset(env: Env) {
    forall parent :: !HomeSet(env, parent)
  }

  lemma HomeExactly(env: Env, name: CString)
    ensures HomeUnset(env) <==> DirFromHome(env, name).None?
    ensures forall parent :: HomeSet(env, parent) ==> DirFromHome(env, name) == Some(parent + "\\" + name)
  {
    forall parent | HomeSet(env, parent)
      ensures DirFromHome(env, name) == Some(parent + "\\" + name)
    {
      ParentExactly(env.home.value, parent);
    }
    if DirFromHome(env, name).Some? {
      ParentExactly(env.home.value, Parent(env.home.value).value);
      assert HomeSet(env, Parent(env.home.value).value);
    }
  }

  /** The user information record is read and names a text. */
  predicate InfoGives(env: Env, info: Wide, t: string) {
    env.functions && env.status.NerrSuccess? && info.Text? && info.text == t
  }

  /** It is not read, or says nothing. */
  predicate InfoSilent(env: Env, info: Wide) {
    !env.functions || !env.status.NerrSuccess? || info.Absent?
  }

  /** A fallback: the user information, or the variable, or the default. */
  ghost predicate Gives(env: Env, info: Wide, variable: Option<CString>, default: CString, t: string) {
    || InfoGives(env, info, t)
    || (InfoSilent(env, info) && variable == Some(t) && t != "")
    || (InfoSilent(env, info) && variable == None && default == t)
  }

  /** The variable is set but empty. */
  predicate SetButEmpty(env: Env, info: Wide, variable: Option<CString>) {
    InfoSilent(env, info) && variable == Some("")
  }

  // ---------------------------------------------------------------------------------------
  // The shell
  // ---------------------------------------------------------------------------------------

  /** SHELL is the shell shown, when it is not empty. */
  lemma {:induction false} ShellIsShown(b: seq<char>, env: Env, name: CString, r: Record, used: nat)
    requires FilledRecord(b, env, name, r, used) && ShellSet(env)
    ensures StringAt(b, r.shellAt) == env.shell.value
  {
    RecordReadsBack(b, env, name, r, used);
  }

  /** Without it the shell of the user information, or COMSPEC, or the default. */
  lemma {:induction false} OtherShellIsShown(b: seq<char>, env: Env, name: CString, r: Record, used: nat)
    requires FilledRecord(b, env, name, r, used) && !ShellSet(env)
    ensures forall t :: Gives(env, env.infoShell, env.comspec, env.defaultShell, t) ==> StringAt(b, r.shellAt) == t
    ensures SetButEmpty(env, env.infoShell, env.comspec) ==>
      StringAt(b, r.shellAt) == if |env.defaultShell| < |b| - r.shellAt then env.defaultShell else ""
  {
    RecordReadsBack(b, env, name, r, used);
  }

  // ---------------------------------------------------------------------------------------
  // The directory
  // ---------------------------------------------------------------------------------------

  /** The directory beside HOME is the one shown. */
  lemma {:induction false} HomeIsShown(b: seq<char>, env: Env, name: CString, r: Record, used: nat, parent: string)
    requires FilledRecord(b, env, name, r, used) && HomeSet(env, parent)
    ensures StringAt(b, r.dirAt) == parent + "\\" + name
  {
    RecordReadsBack(b, env, name, r, used);
    HomeExactly(env, name);
  }

  /** Without it that of the user information, or USERPROFILE, or the default. */
  lemma {:induction false} OtherDirIsShown(b: seq<char>, env: Env, name: CString, r: Record, used: nat)
    requires FilledRecord(b, env, name, r, used) && HomeUnset(env)
    ensures forall t :: Gives(env, env.infoDir, env.profile, env.defaultDir, t) ==> StringAt(b, r.dirAt) == t
  {
    RecordReadsBack(b, env, name, r, used);
    HomeExactly(env, name);
  }

  /** What an empty USERPROFILE leaves: the registry text, or the default, or nothing, as it fits. */
  ghost predicate EmptyLeaves(env: Env, room: int, t: string) {
    match env.registry
    case NoValue => t == if |env.defaultDir| < room then env.defaultDir else ""
    case Value(text, sz) =>
      if room <= |text| then t == ""
      else if sz || room <= |env.defaultDir| then t == text
      else t == env.defaultDir
  }

  /** An empty USERPROFILE: that text, or its first two characters and the shell behind them. */
  lemma {:induction false} EmptyProfileShows(b: seq<char>, env: Env, name: CString, r: Record, used: nat, t: string)
    requires FilledRecord(b, env, name, r, used) && HomeUnset(env)
    requires SetButEmpty(env, env.infoDir, env.profile) && EmptyLeaves(env, |b| - r.dirAt, t)
    ensures StringAt(b, r.dirAt) ==
      if ShellSet(env) || |t| < 2 then t else t[..2] + StringAt(b, r.shellAt)
  {
    RecordReadsBack(b, env, name, r, used);
    EmptyIsWritten(env, name, |b| - r.dirAt, t);
    if RunsIntoShell(env, name, |b| - r.dirAt) {
      EmptyVariableOverlaps(b, env, name, r, used);
    }
  }

  lemma EmptyIsWritten(env: Env, name: CString, room: int, t: string)
    requires HomeUnset(env) && SetButEmpty(env, env.infoDir, env.profile) && EmptyLeaves(env, room, t)
    ensures WrittenDir(env, name, room) == t && EmptyDirVariable(env, name)
    ensures RunsIntoShell(env, name, room) <==> !ShellSet(env) && |t| >= 2
  {
    HomeExactly(env, name);
  }

  // ---------------------------------------------------------------------------------------
  // Bytes, order and success
  // ---------------------------------------------------------------------------------------

  /** A fallback takes its text and a terminator, a variable one byte more. */
  ghost predicate Takes(env: Env, info: Wide, variable: Option<CString>, default: CString, bytes: nat) {
    || (exists t :: InfoGives(env, info, t) && bytes == |t| + 1)
    || (InfoSilent(env, info) && variable.Some? && bytes == |variable.value| + 2)
    || (InfoSilent(env, info) && variable == None && bytes == |default| + 1)
  }

  ghost predicate ShellTakes(env: Env, bytes: nat) {
    if ShellSet(env) then bytes == |env.shell.value| + 1
    else Takes(env, env.infoShell, env.comspec, env.defaultShell, bytes)
  }

  ghost predicate DirTakes(env: Env, name: CString, bytes: nat) {
    || (exists parent :: HomeSet(env, parent) && bytes == |parent| + 1 + |name| + 1)
    || (HomeUnset(env) && Takes(env, env.infoDir, env.profile, env.defaultDir, bytes))
  }

  lemma BytesTaken(env: Env, name: CString, bytes: nat)
    ensures ShellTakes(env, bytes) ==> bytes == ShellNeed(env)
    ensures DirTakes(env, name, bytes) ==> bytes == DirNeed(env, name)
  {
    HomeExactly(env, name);
  }

  /** The name, then the directory and the shell; the shell first only if SHELL is set and HOME gives nothing. */
  lemma {:induction false} RecordOrder(b: seq<char>, env: Env, name: CString, r: Record, used: nat)
    requires FilledRecord(b, env, name, r, used)
    ensures r.nameAt == 0
    ensures forall bytes :: DirTakes(env, name, bytes) && !(HomeUnset(env) && ShellSet(env)) ==>
      r.dirAt == |name| + 1 && r.shellAt == |name| + 1 + bytes
    ensures forall bytes :: ShellTakes(env, bytes) && HomeUnset(env) && ShellSet(env) ==>
      r.shellAt == |name| + 1 && r.dirAt == |name| + 1 + bytes
    ensures forall d, s :: DirTakes(env, name, d) && ShellTakes(env, s) ==> used == |name| + 1 + d + s
  {
    HomeExactly(env, name);
    forall bytes
      ensures ShellTakes(env, bytes) ==> bytes == ShellNeed(env)
      ensures DirTakes(env, name, bytes) ==> bytes == DirNeed(env, name)
    {
      BytesTaken(env, name, bytes);
    }
  }

  /** A string that the user information has but that cannot be converted. */
  predicate InfoBroken(env: Env, info: Wide) {
    env.functions && env.status.NerrSuccess? && info.Unconvertible?
  }

  /** The carving can succeed: nothing it falls back on is broken, and the user information knows the user. */
  lemma UsableExactly(env: Env, name: CString)
    ensures Usable(env, name) <==>
      && (HomeUnset(env) || !ShellSet(env) ==> !(env.functions && env.status.NerrUserNotFound?))
      && (HomeUnset(env) ==> !InfoBroken(env, env.infoDir))
      && (!ShellSet(env) ==> !InfoBroken(env, env.infoShell))
  {
    HomeExactly(env, name);
  }

  // ---------------------------------------------------------------------------------------
  // The error codes
  // ---------------------------------------------------------------------------------------

  /** What HOME and SHELL give fits into the room behind the name. */
  ghost predicate GivenFits(env: Env, name: CString, room: int) {
    var s := if ShellSet(env) then |env.shell.value| + 1 else 0;
    s <= room && forall parent :: HomeSet(env, parent) ==> |parent| + 1 + |name| + 1 + s <= room
  }

  /** The user information is asked, because HOME or SHELL gives nothing, and does not know the user. */
  ghost predicate Unknown(env: Env) {
    (HomeUnset(env) || !ShellSet(env)) && env.functions && env.status.NerrUserNotFound?
  }

  /** A string that has to be converted cannot be: the directory, or the shell behind one that fits. */
  ghost predicate Unconverted(env: Env, name: CString, room: int) {
    || (HomeUnset(env) && InfoBroken(env, env.infoDir))
    || (!ShellSet(env) && InfoBroken(env, env.infoShell)
        && (HomeUnset(env) ==> forall d: nat :: DirTakes(env, name, d) ==> d <= room))
  }

  lemma HomeGivesAll(env: Env, name: CString)
    ensures DirFromHome(env, name).Some? ==>
      exists parent :: HomeSet(env, parent) && DirFromHome(env, name) == Some(parent + "\\" + name)
  {
    HomeExactly(env, name);
    if DirFromHome(env, name).Some? {
      var parent :| HomeSet(env, parent);
    }
  }

  lemma GivenFitsExactly(env: Env, name: CString, room: nat)
    ensures GivenFits(env, name, room) <==> EnvFits(env, name, room)
  {
    HomeExactly(env, name);
    HomeGivesAll(env, name);
  }

  lemma DirFallsBack(env: Env, name: CString)
    requires HomeUnset(env)
    ensures InfoBroken(env, env.infoDir) <==> DirFallback(env).Broken?
    ensures !InfoBroken(env, env.infoDir) ==> DirTakes(env, name, DirNeed(env, name))
  {
    HomeExactly(env, name);
    if env.functions && env.status.NerrSuccess? && env.infoDir.Text? {
      assert InfoGives(env, env.infoDir, env.infoDir.text);
    }
  }

  /** How carving the two strings out of `room` bytes ends: every code in its exact case. */
  lemma CodesExactly(env: Env, name: CString, room: nat)
    ensures var code := CarveCode(env, name, room);
      && (code == EOK <==> Usable(env, name) && Need(env, name) <= room)
      && (code == ENOENT <==> GivenFits(env, name, room) && Unknown(env))
      && (code == ENOMEM <==> GivenFits(env, name, room) && !Unknown(env) && Unconverted(env, name, room))
      && (code == EOK || code == ENOENT || code == ENOMEM || code == ERANGE)
  {
    GivenFitsExactly(env, name, room);
    HomeExactly(env, name);
    if HomeUnset(env) {
      DirFallsBack(env, name);
      forall d | DirTakes(env, name, d)
        ensures d == DirNeed(env, name)
      {
        BytesTaken(env, name, d);
      }
    }
  }

  /** How the call ends once the name is looked up: each step in its turn, and then the carving. */
  lemma NamedCodesExactly(env: Env, name: CString, dll: bool, converts: bool, wideOk: bool, size: nat)
    ensures var code := NamedCode(env, name, dll, converts, wideOk, size);
      && (size <= |name| ==> code == ERANGE)
      && (size > |name| ==>
            && (code == ENOEXEC <==> !dll)
            && (code == EIO <==> dll && !converts)
            && (dll && converts && !wideOk ==> code == ENOMEM)
            && (dll && converts && wideOk ==> code == CarveCode(env, name, size - |name| - 1)))
  {
    if size > |name| && dll && converts && wideOk {
      CodesExactly(env, name, size - |name| - 1);
    }
  }
}
