/**
 getpwnam_r and getpwuid_r (source/getpwnam_r.c, source/getpwuid_r.c): the three strings of a
 passwd record are carved one after the other from the caller's buffer.

 The system calls are inputs. For a directory variable that is not set, the registry lookup between
 it and the default directory is taken to find nothing.
 */
module PasswdBuffer {
  import opened CStrings
  import opened HomePath

  datatype Errno = EOK | EINVAL | EIO | ERANGE | ENOEXEC | ENOMEM | ENOENT

  /** The status of NetUserGetInfo. */
  datatype Status = NerrSuccess | NerrUserNotFound | NerrOther

  /** A wide string of the user information record: NULL or empty, not convertible, or a text. */
  datatype Wide = Absent | Unconvertible | Text(text: CString)

  /** The registry value of the personal directory: a terminated text, of type REG_SZ or another. */
  datatype Registry = NoValue | Value(text: CString, sz: bool)

  /** How the system answers, and the two texts compiled in for a user without settings. */
  datatype Env = Env(home: Option<CString>, shell: Option<CString>, dupOk: bool, functions: bool,
                     status: Status, infoDir: Wide, infoShell: Wide,
                     profile: Option<CString>, registry: Registry, comspec: Option<CString>,
                     defaultDir: CString, defaultShell: CString)

  /** The texts of the source. */
  const DEFAULT_DIR: CString := "C:\\Users\\Default"
  const DEFAULT_SHELL: CString := "C:\\Windows\\System32\\cmd.exe"

  predicate AsCompiled(env: Env) {
    env.defaultDir == DEFAULT_DIR && env.defaultShell == DEFAULT_SHELL
  }

  /** The result of LookupAccountNameA. */
  datatype Lookup = NoneMapped | Mapped | LookupFailed

  // ---------------------------------------------------------------------------------------
  // What goes where
  // ---------------------------------------------------------------------------------------

  function DirFromHome(env: Env, name: CString): Option<string> {
    if env.home.Some? && env.home.value != "" && env.dupOk then Sibling(env.home.value, name) else None
  }

  function ShellFromEnv(env: Env): Option<CString> {
    if env.shell.Some? && env.shell.value != "" then env.shell else None
  }

  /** Is the user information record read, and has it been found? */
  predicate InfoUsable(env: Env) {
    env.functions && env.status.NerrSuccess?
  }

  /** Where a string comes from when the environment does not give it. */
  datatype Fallback = FromInfo(text: CString) | Broken | FromVariable(text: CString) | FromDefault(text: CString)

  function Falls(usable: bool, info: Wide, variable: Option<CString>, default: CString): Fallback {
    if usable && info.Text? then FromInfo(info.text)
    else if usable && info.Unconvertible? then Broken
    else if variable.Some? then FromVariable(variable.value)
    else FromDefault(default)
  }

  function DirFallback(env: Env): Fallback {
    Falls(InfoUsable(env), env.infoDir, env.profile, env.defaultDir)
  }

  function ShellFallback(env: Env): Fallback {
    Falls(InfoUsable(env), env.infoShell, env.comspec, env.defaultShell)
  }

  /** The bytes set aside: an environment variable is given one more than it needs. */
  function NeedOf(f: Fallback): nat {
    match f
    case FromInfo(t) => |t| + 1
    case Broken => 0
    case FromVariable(t) => |t| + 2
    case FromDefault(t) => |t| + 1
  }

  function DirNeed(env: Env, name: CString): nat {
    var d := DirFromHome(env, name);
    if d.Some? then |d.value| + 1 else NeedOf(DirFallback(env))
  }

  function ShellNeed(env: Env): nat {
    var s := ShellFromEnv(env);
    if s.Some? then |s.value| + 1 else NeedOf(ShellFallback(env))
  }

  /** The directory and shell that the record should show. */
  function DirText(env: Env, name: CString): string {
    var d := DirFromHome(env, name);
    if d.Some? then d.value
    else match DirFallback(env)
         case FromInfo(t) => t
         case Broken => ""
         case FromVariable(t) => t
         case FromDefault(t) => t
  }

  function ShellText(env: Env): string {
    var s := ShellFromEnv(env);
    if s.Some? then s.value
    else match ShellFallback(env)
         case FromInfo(t) => t
         case Broken => ""
         case FromVariable(t) => t
         case FromDefault(t) => t
  }

  /** Everything but space is in order. */
  predicate Usable(env: Env, name: CString) {
    var dirFalls, shellFalls := DirFromHome(env, name).None?, ShellFromEnv(env).None?;
    && (dirFalls || shellFalls ==> !(env.functions && env.status.NerrUserNotFound?))
    && (dirFalls ==> !DirFallback(env).Broken?)
    && (shellFalls ==> !ShellFallback(env).Broken?)
  }

  /** A variable that is set but empty is measured as set and read as unset. */
  predicate EmptyVariable(f: Fallback) {
    f.FromVariable? && |f.text| == 0
  }

  predicate EmptyDirVariable(env: Env, name: CString) {
    DirFromHome(env, name).None? && EmptyVariable(DirFallback(env))
  }

  predicate EmptyShellVariable(env: Env) {
    ShellFromEnv(env).None? && EmptyVariable(ShellFallback(env))
  }

  /**
   What is written for an empty variable where `room` bytes remain: the registry text if it has the
   right type, or else the default over it; either only if it fits.
   */
  function WrittenEmpty(registry: Registry, default: CString, room: int): CString {
    if registry.Value? && |registry.text| >= room then ""
    else if registry.Value? && (registry.sz || |default| >= room) then registry.text
    else if |default| < room then default
    else ""
  }

  /** What is written where `room` bytes remain. */
  function Written(f: Fallback, registry: Registry, default: CString, room: int): CString {
    match f
    case FromInfo(t) => t
    case Broken => ""
    case FromVariable(t) => if |t| == 0 then WrittenEmpty(registry, default, room) else t
    case FromDefault(t) => t
  }

  function WrittenDir(env: Env, name: CString, room: int): string {
    var d := DirFromHome(env, name);
    if d.Some? then d.value else Written(DirFallback(env), env.registry, env.defaultDir, room)
  }

  function WrittenShell(env: Env, room: int): CString {
    var s := ShellFromEnv(env);
    if s.Some? then s.value else Written(ShellFallback(env), NoValue, env.defaultShell, room)
  }

  /** More is written for an empty variable than the two bytes set aside hold, and the shell goes behind them. */
  predicate RunsIntoShell(env: Env, name: CString, room: int) {
    EmptyDirVariable(env, name) && ShellFromEnv(env).None? && |WrittenDir(env, name, room)| >= 2
  }

  /** What the directory reads as in the end, from an index with `room` bytes behind it. */
  function ShownDir(env: Env, name: CString, room: int): string {
    if RunsIntoShell(env, name, room) then WrittenDir(env, name, room)[..2] + WrittenShell(env, room - 2)
    else WrittenDir(env, name, room)
  }

  /** A string and its terminator at index at: the characters from the k-th on. */
  ghost predicate FieldFrom(b: seq<char>, at: nat, text: string, k: nat)
    requires k <= |text|
    decreases |text| - k
  {
    && at + |text| < |b|
    && if k == |text| then b[at + k] == NUL else b[at + k] == text[k] && FieldFrom(b, at, text, k + 1)
  }

  ghost predicate Field(b: seq<char>, at: nat, text: string) {
    FieldFrom(b, at, text, 0)
  }

  lemma {:induction false} FieldOfSlice(b: seq<char>, at: nat, text: string, k: nat)
    requires k <= |text| && at + |text| < |b| && b[at..at + |text| + 1] == text + [NUL]
    ensures FieldFrom(b, at, text, k)
    decreases |text| - k
  {
    assert b[at + k] == b[at..at + |text| + 1][k];
    if k < |text| {
      FieldOfSlice(b, at, text, k + 1);
    }
  }

  lemma {:induction false} FieldKept(b: seq<char>, b': seq<char>, at: nat, text: string, k: nat, upTo: nat)
    requires k <= |text| && FieldFrom(b, at, text, k) && at + |text| < upTo <= |b| && |b'| == |b|
    requires b'[..upTo] == b[..upTo]
    ensures FieldFrom(b', at, text, k)
    decreases |text| - k
  {
    assert b'[at + k] == b'[..upTo][at + k] == b[..upTo][at + k] == b[at + k];
    if k < |text| {
      FieldKept(b, b', at, text, k + 1, upTo);
    }
  }

  lemma SiblingIsCString(home: CString, name: CString)
    ensures Sibling(home, name).Some? ==> NUL !in Sibling(home, name).value
  {
  }

  // ---------------------------------------------------------------------------------------
  // Writing into the buffer
  // ---------------------------------------------------------------------------------------

  /** strcpy, memcpy or snprintf of a string that fits. */
  method Store(buf: array<char>, p: nat, text: string)
    requires p + |text| < buf.Length
    modifies buf
    ensures buf[..p] == old(buf[..p])
    ensures buf[p..p + |text| + 1] == text + [NUL]
    ensures Field(buf[..], p, text)
    ensures buf[p + |text| + 1..] == old(buf[p + |text| + 1..])
  {
    var k := 0;
    while k != |text|
      invariant 0 <= k <= |text|
      invariant buf[..p] == old(buf[..p])
      invariant buf[p..p + k] == text[..k]
      invariant buf[p + |text| + 1..] == old(buf[p + |text| + 1..])
    {
      buf[p + k] := text[k];
      k := k + 1;
      assert text[..k] == text[..k - 1] + [text[k - 1]];
    }
    assert text[..k] == text;
    buf[p + k] := NUL;
    assert buf[..][p..p + |text| + 1] == buf[p..p + |text| + 1];
    FieldOfSlice(buf[..], p, text, 0);
  }

  /**
   GetEnvironmentVariableA for a buffer of `size` bytes at p: the length written, or the size
   required, or 0 for a variable that is not set.
   */
  method GetVariable(variable: Option<CString>, buf: array<char>, p: nat, size: nat) returns (n: nat)
    requires p + size <= buf.Length
    modifies buf
    ensures n == if variable == None then 0
                 else if size <= |variable.value| then |variable.value| + 1 else |variable.value|
    ensures buf[..p] == old(buf[..p])
    ensures variable.Some? && |variable.value| < size ==> Field(buf[..], p, variable.value)
  {
    if variable == None {
      return 0;
    }
    if size <= |variable.value| {
      return |variable.value| + 1;
    }
    Store(buf, p, variable.value);
    n := |variable.value|;
  }

  /** How RegQueryValueExA ends. */
  datatype Query = Missing | MoreData | Found(sz: bool)

  /** RegQueryValueExA for a buffer of `size` bytes at p; a value that does not fit leaves it alone. */
  method QueryRegistry(registry: Registry, buf: array<char>, p: nat, size: nat) returns (q: Query)
    requires p + size <= buf.Length
    modifies buf
    ensures q == if registry.NoValue? then Missing else if size <= |registry.text| then MoreData else Found(registry.sz)
    ensures buf[..p] == old(buf[..p])
    ensures if q.Found? then Field(buf[..], p, registry.text) else buf[..] == old(buf[..])
  {
    if registry.NoValue? {
      return Missing;
    }
    if size <= |registry.text| {
      return MoreData;
    }
    Store(buf, p, registry.text);
    q := Found(registry.sz);
  }

  /**
   get_user_home_directory_buf and get_user_shell_buf (which has no registry value), with their
   default text. A variable that is not set is taken to have no registry value either.
   */
  method VariableOrDefault(variable: Option<CString>, registry: Registry, default: CString,
                           buf: array<char>, p: nat, size: nat)
    returns (n: nat)
    requires p + size <= buf.Length
    modifies buf
    ensures buf[..p] == old(buf[..p])
    ensures size == 0 ==> n == if variable.Some? then |variable.value| + 2 else |default| + 1
    ensures variable.Some? && |variable.value| + 1 < size ==>
              Field(buf[..], p, Written(FromVariable(variable.value), registry, default, size))
    ensures variable == None && |default| < size ==> Field(buf[..], p, default)
  {
    var needed := GetVariable(variable, buf, p, size);
    if needed > 0 {
      return needed + 1;
    }
    if variable.Some? {
      var q := QueryRegistry(registry, buf, p, size);
      if q == Found(true) || q == MoreData {
        return |registry.text| + 1;
      }
    }
    if |default| + 1 <= size {
      Store(buf, p, default);
    }
    n := |default| + 1;
  }

  /**
   A string taken from the user information or the environment, measured first and written
   second. Broken strings give ENOMEM, missing space ERANGE.
   */
  method StoreFallback(usable: bool, info: Wide, variable: Option<CString>, registry: Registry, default: CString,
                       buf: array<char>, p: nat, remaining: nat)
    returns (code: Errno, needed: nat)
    requires p + remaining == buf.Length
    modifies buf
    ensures buf[..p] == old(buf[..p])
    ensures var f := Falls(usable, info, variable, default);
            && needed == NeedOf(f)
            && code == (if f.Broken? then ENOMEM else if remaining < needed then ERANGE else EOK)
            && (code == EOK ==> Field(buf[..], p, Written(f, registry, default, remaining)))
  {
    ghost var f := Falls(usable, info, variable, default);
    if usable && !info.Absent? {
      needed := if info.Text? then |info.text| + 1 else 0;
    } else {
      needed := VariableOrDefault(variable, registry, default, buf, buf.Length, 0);
      assert buf[..p] == buf[..buf.Length][..p];
    }
    if needed == 0 {
      return ENOMEM, needed;
    }
    if remaining < needed {
      return ERANGE, needed;
    }
    if usable && !info.Absent? {
      Store(buf, p, info.text);
    } else {
      var n := VariableOrDefault(variable, registry, default, buf, p, remaining);
    }
    code := EOK;
  }

  // ---------------------------------------------------------------------------------------
  // The common part of the two functions
  // ---------------------------------------------------------------------------------------

  /** HOME and the name give a directory, written at p when it fits. */
  method StoreHome(env: Env, name: CString, buf: array<char>, p: nat, remaining: nat)
    returns (code: Errno, found: bool, len: nat)
    requires p + remaining == buf.Length
    modifies buf
    ensures buf[..p] == old(buf[..p])
    ensures found <==> DirFromHome(env, name).Some?
    ensures found ==> len == |DirFromHome(env, name).value| + 1
    ensures code == if found && remaining < len then ERANGE else EOK
    ensures code == EOK && found ==> Field(buf[..], p, DirFromHome(env, name).value)
  {
    code, found, len := EOK, false, 0;
    if env.home.Some? && env.home.value != "" && env.dupOk {
      var home := env.home.value;
      var path := new char[|home| + 1];
      Store(path, 0, home);
      assert path[..|home|] == path[0..|home| + 1][..|home|];
      assert path[|home|] == path[0..|home| + 1][|home|];
      var parent := CutToParent(path, home);
      if parent.Some? {
        found := true;
        len := parent.value + 1 + |name| + 1;
        if remaining < len {
          return ERANGE, true, len;
        }
        var text := path[..parent.value] + "\\" + name;
        assert path[..parent.value] == path[..parent.value + 1][..parent.value];
        Store(buf, p, text);
      }
    }
  }

  /** SHELL, written at p when it is set and fits. */
  method StoreShell(env: Env, buf: array<char>, p: nat, remaining: nat)
    returns (code: Errno, found: bool, len: nat)
    requires p + remaining == buf.Length
    modifies buf
    ensures buf[..p] == old(buf[..p])
    ensures found <==> ShellFromEnv(env).Some?
    ensures found ==> len == |ShellFromEnv(env).value| + 1
    ensures code == if found && remaining < len then ERANGE else EOK
    ensures code == EOK && found ==> Field(buf[..], p, ShellFromEnv(env).value)
  {
    code, found, len := EOK, false, 0;
    if env.shell.Some? && env.shell.value != "" {
      found, len := true, |env.shell.value| + 1;
      if remaining < len {
        return ERANGE, true, len;
      }
      Store(buf, p, env.shell.value);
    }
  }

  /** The directory comes first, unless only the shell is in the environment. */
  predicate ShellFirst(env: Env, name: CString) {
    DirFromHome(env, name).None? && ShellFromEnv(env).Some?
  }

  function DirAt(start: nat, env: Env, name: CString): nat {
    if ShellFirst(env, name) then start + ShellNeed(env) else start
  }

  function ShellAt(start: nat, env: Env, name: CString): nat {
    if ShellFirst(env, name) then start else start + DirNeed(env, name)
  }

  /** What a successful call leaves in the buffer. */
  ghost predicate Carved(b: seq<char>, start: nat, env: Env, name: CString, dirAt: nat, shellAt: nat) {
    && dirAt == DirAt(start, env, name) && shellAt == ShellAt(start, env, name)
    && Field(b, dirAt, ShownDir(env, name, |b| - dirAt))
    && Field(b, shellAt, WrittenShell(env, |b| - shellAt))
  }

  /** Total space that the directory and the shell are given. */
  function Need(env: Env, name: CString): nat {
    DirNeed(env, name) + ShellNeed(env)
  }

  /**
   From the HOME block to the end. At every moment the bytes used and the bytes remaining add up
   to the length of the buffer.
   */
  method Carve(env: Env, name: CString, buf: array<char>, start: nat, room: nat)
    returns (code: Errno, dirAt: nat, shellAt: nat, p: nat, remaining: nat)
    requires start + room == buf.Length
    modifies buf
    ensures buf[..start] == old(buf[..start])
    ensures code == EOK <==> Usable(env, name) && Need(env, name) <= room
    ensures code == ERANGE ==> Need(env, name) > room
    ensures code == EOK ==> p == start + Need(env, name) && p + remaining == buf.Length
    ensures code == EOK ==> Carved(buf[..], start, env, name, dirAt, shellAt)
    ensures code == CarveCode(env, name, room)
  {
    var hasDir, hasShell;
    code, hasDir, hasShell, p, remaining := CarveEnvironment(env, name, buf, start, room);
    dirAt, shellAt := DirAt(start, env, name), ShellAt(start, env, name);
    if code != EOK {
      return;
    }
    if !hasDir || !hasShell {
      if env.functions && env.status.NerrUserNotFound? {
        return ENOENT, dirAt, shellAt, p, remaining;
      }
      code, p, remaining := CarveRest(env, name, buf, start, hasDir, hasShell, p, remaining);
    }
  }

  /** The HOME and SHELL blocks. */
  method CarveEnvironment(env: Env, name: CString, buf: array<char>, start: nat, room: nat)
    returns (code: Errno, hasDir: bool, hasShell: bool, p: nat, remaining: nat)
    requires start + room == buf.Length
    modifies buf
    ensures buf[..start] == old(buf[..start])
    ensures code == if EnvFits(env, name, room) then EOK else ERANGE
    ensures code == ERANGE ==> Need(env, name) > room
    ensures hasDir <==> DirFromHome(env, name).Some?
    ensures code == EOK ==> (hasShell <==> ShellFromEnv(env).Some?)
    ensures code == EOK ==>
              && p == start + (if hasDir then DirNeed(env, name) else 0) + (if hasShell then ShellNeed(env) else 0)
              && p + remaining == buf.Length
    ensures code == EOK && hasDir ==> Field(buf[..], DirAt(start, env, name), DirText(env, name))
    ensures code == EOK && hasShell ==> Field(buf[..], ShellAt(start, env, name), ShellText(env))
  {
    p, remaining, hasShell := start, room, false;
    var len;
    code, hasDir, len := StoreHome(env, name, buf, p, remaining);
    if code != EOK {
      return;
    }
    ghost var b := buf[..];
    if hasDir {
      p, remaining := p + len, remaining - len;
    }
    code, hasShell, len := StoreShell(env, buf, p, remaining);
    if code != EOK {
      return;
    }
    if hasDir {
      KeepField(b, buf[..], start, DirText(env, name), p);
    }
    if hasShell {
      p, remaining := p + len, remaining - len;
    }
  }

  /** FieldKept for whole buffers, in the form the carving needs it. */
  lemma KeepField(b: seq<char>, b': seq<char>, at: nat, text: string, upTo: nat)
    requires |b'| == |b| && upTo <= |b| && b'[..upTo] == b[..upTo]
    requires at + |text| < upTo
    ensures Field(b, at, text) ==> Field(b', at, text)
  {
    if Field(b, at, text) {
      FieldKept(b, b', at, text, 0, upTo);
    }
  }

  /** The directory, stored behind the shell that is already there. */
  method DirBehind(env: Env, name: CString, buf: array<char>, ghost shellAt: nat, p0: nat, room: nat)
    returns (code: Errno, p: nat, remaining: nat)
    requires p0 + room == buf.Length && ShellFirst(env, name)
    requires p0 == shellAt + ShellNeed(env)
    requires Field(buf[..], shellAt, ShellText(env))
    modifies buf
    ensures buf[..p0] == old(buf[..p0])
    ensures code == (if DirFallback(env).Broken? then ENOMEM else if room < DirNeed(env, name) then ERANGE else EOK)
    ensures code == EOK ==> p == p0 + DirNeed(env, name) && p + remaining == buf.Length
    ensures code == EOK ==> Field(buf[..], p0, WrittenDir(env, name, buf.Length - p0))
    ensures Field(buf[..], shellAt, ShellText(env))
  {
    ghost var b := buf[..];
    code, p, remaining := CarveDir(env, name, buf, p0, room);
    KeepField(b, buf[..], shellAt, ShellText(env), p0);
  }

  /** The shell, stored behind the directory that is already there. */
  method ShellBehind(env: Env, name: CString, buf: array<char>, ghost dirAt: nat, p0: nat, room: nat)
    returns (code: Errno, p: nat, remaining: nat)
    requires p0 + room == buf.Length && ShellFromEnv(env).None?
    requires p0 == dirAt + DirNeed(env, name)
    requires DirFromHome(env, name).Some? || !DirFallback(env).Broken?
    requires Field(buf[..], dirAt, WrittenDir(env, name, buf.Length - dirAt))
    modifies buf
    ensures buf[..p0] == old(buf[..p0])
    ensures code == (if ShellFallback(env).Broken? then ENOMEM else if room < ShellNeed(env) then ERANGE else EOK)
    ensures code == EOK ==> p == p0 + ShellNeed(env) && p + remaining == buf.Length
    ensures code == EOK ==> Field(buf[..], dirAt, ShownDir(env, name, buf.Length - dirAt))
    ensures code == EOK ==> Field(buf[..], p0, WrittenShell(env, buf.Length - p0))
  {
    ghost var b := buf[..];
    code, p, remaining := CarveShell(env, buf, p0, room);
    if code == EOK {
      assert b[..p0] == buf[..][..p0];
      DirAfterShell(b, buf[..], env, name, dirAt, p0);
    }
  }

  /** What becomes of the directory when the shell is stored behind the bytes set aside for it. */
  lemma DirAfterShell(b: seq<char>, b': seq<char>, env: Env, name: CString, dirAt: nat, p: nat)
    requires |b'| == |b| && p <= |b| && b'[..p] == b[..p] && p == dirAt + DirNeed(env, name)
    requires DirFromHome(env, name).Some? || !DirFallback(env).Broken?
    requires ShellFromEnv(env).None?
    requires Field(b, dirAt, WrittenDir(env, name, |b| - dirAt))
    requires Field(b', p, WrittenShell(env, |b| - p))
    ensures Field(b', dirAt, ShownDir(env, name, |b| - dirAt))
  {
    if RunsIntoShell(env, name, |b| - dirAt) {
      Joined(b, b', dirAt, WrittenDir(env, name, |b| - dirAt), WrittenShell(env, |b| - p));
    } else {
      KeepField(b, b', dirAt, WrittenDir(env, name, |b| - dirAt), p);
    }
  }

  /** Two characters in front of a string. */
  lemma {:induction false} FieldBehind(b: seq<char>, at: nat, front: string, text: string, k: nat)
    requires k <= |text| && FieldFrom(b, at + |front|, text, k)
    ensures FieldFrom(b, at, front + text, |front| + k)
    decreases |text| - k
  {
    if k < |text| {
      FieldBehind(b, at, front, text, k + 1);
      assert (front + text)[|front| + k] == text[k];
    }
  }

  /** Where a string is overwritten from its third character on, its first two and the new string stand. */
  lemma Joined(b: seq<char>, b': seq<char>, at: nat, text: string, behind: string)
    requires |b'| == |b| && at + 2 <= |b| && b'[..at + 2] == b[..at + 2]
    requires |text| >= 2 && Field(b, at, text) && Field(b', at + 2, behind)
    ensures Field(b', at, text[..2] + behind)
  {
    var front := text[..2];
    assert b'[at] == b'[..at + 2][at] && b'[at + 1] == b'[..at + 2][at + 1];
    assert b[at] == b[..at + 2][at] && b[at + 1] == b[..at + 2][at + 1];
    assert FieldFrom(b, at, text, 1);
    FieldBehind(b', at, front, behind, 0);
    var all := front + behind;
    assert all[0] == text[0] && all[1] == text[1];
    assert FieldFrom(b', at, all, 1);
  }

  /** How much the fallbacks still need. */
  function Left(env: Env, name: CString): nat {
    (if DirFromHome(env, name).Some? then 0 else DirNeed(env, name))
    + (if ShellFromEnv(env).Some? then 0 else ShellNeed(env))
  }

  /** The bytes for what the environment gives, the directory before the shell. */
  function FromEnvNeed(env: Env, name: CString): nat {
    (if DirFromHome(env, name).Some? then DirNeed(env, name) else 0)
    + (if ShellFromEnv(env).Some? then ShellNeed(env) else 0)
  }

  predicate EnvFits(env: Env, name: CString, room: nat) {
    && (DirFromHome(env, name).Some? ==> DirNeed(env, name) <= room)
    && FromEnvNeed(env, name) <= room
  }

  /** The error of a fallback that is taken. */
  function FallbackCode(f: Fallback, need: nat, room: nat): Errno {
    if f.Broken? then ENOMEM else if room < need then ERANGE else EOK
  }

  /** The error of the fallbacks: that of the directory, or else that of the shell. */
  function RestCode(env: Env, name: CString, room: nat): Errno {
    if DirFromHome(env, name).Some? then FallbackCode(ShellFallback(env), ShellNeed(env), room)
    else
      var first := FallbackCode(DirFallback(env), DirNeed(env, name), room);
      if first != EOK || ShellFromEnv(env).Some? then first
      else FallbackCode(ShellFallback(env), ShellNeed(env), room - DirNeed(env, name))
  }

  /** The error of the whole carving. */
  function CarveCode(env: Env, name: CString, room: nat): Errno {
    if !EnvFits(env, name, room) then ERANGE
    else if DirFromHome(env, name).Some? && ShellFromEnv(env).Some? then EOK
    else if env.functions && env.status.NerrUserNotFound? then ENOENT
    else RestCode(env, name, room - FromEnvNeed(env, name))
  }

  /** How the fallbacks end, from p0 with `room` bytes remaining. */
  predicate RestEnds(env: Env, name: CString, code: Errno, p0: nat, room: nat, p: nat, remaining: nat) {
    && (DirFromHome(env, name).None? || ShellFromEnv(env).None? ==> code == RestCode(env, name, room))
    && (code == EOK || code == ENOMEM || code == ERANGE)
    && (code == EOK <==> Usable(env, name) && Left(env, name) <= room)
    && (code == ERANGE ==> Left(env, name) > room)
    && (code == EOK ==> p == p0 + Left(env, name) && p + remaining == p0 + room)
  }

  /** The two fallbacks, each only when the environment gave nothing. */
  method CarveRest(env: Env, name: CString, buf: array<char>, ghost start: nat,
                   hasDir: bool, hasShell: bool, p0: nat, room: nat)
    returns (code: Errno, p: nat, remaining: nat)
    requires p0 + room == buf.Length
    requires hasDir <==> DirFromHome(env, name).Some?
    requires hasShell <==> ShellFromEnv(env).Some?
    requires !hasDir || !hasShell
    requires p0 == start + (if hasDir then DirNeed(env, name) else 0) + (if hasShell then ShellNeed(env) else 0)
    requires hasDir ==> Field(buf[..], DirAt(start, env, name), DirText(env, name))
    requires hasShell ==> Field(buf[..], ShellAt(start, env, name), ShellText(env))
    requires !(env.functions && env.status.NerrUserNotFound?)
    modifies buf
    ensures buf[..p0] == old(buf[..p0])
    ensures RestEnds(env, name, code, p0, room, p, remaining)
    ensures code == EOK ==> Carved(buf[..], start, env, name, DirAt(start, env, name), ShellAt(start, env, name))
  {
    if hasShell {
      code, p, remaining := DirLast(env, name, buf, start, p0, room);
    } else if hasDir {
      code, p, remaining := ShellLast(env, name, buf, start, p0, p0, room);
    } else {
      code, p, remaining := BothFall(env, name, buf, p0, room);
    }
  }

  /** The directory, when SHELL has been stored at the start. */
  method DirLast(env: Env, name: CString, buf: array<char>, ghost start: nat, p0: nat, room: nat)
    returns (code: Errno, p: nat, remaining: nat)
    requires p0 + room == buf.Length && ShellFirst(env, name)
    requires !(env.functions && env.status.NerrUserNotFound?)
    requires p0 == start + ShellNeed(env)
    requires Field(buf[..], start, ShellText(env))
    modifies buf
    ensures buf[..p0] == old(buf[..p0])
    ensures RestEnds(env, name, code, p0, room, p, remaining)
    ensures code == EOK ==> Carved(buf[..], start, env, name, DirAt(start, env, name), ShellAt(start, env, name))
  {
    code, p, remaining := DirBehind(env, name, buf, start, p0, room);
  }

  /** Neither HOME nor SHELL gave anything. */
  method BothFall(env: Env, name: CString, buf: array<char>, p0: nat, room: nat)
    returns (code: Errno, p: nat, remaining: nat)
    requires p0 + room == buf.Length && DirFromHome(env, name).None? && ShellFromEnv(env).None?
    requires !(env.functions && env.status.NerrUserNotFound?)
    modifies buf
    ensures buf[..p0] == old(buf[..p0])
    ensures RestEnds(env, name, code, p0, room, p, remaining)
    ensures code == EOK ==> Carved(buf[..], p0, env, name, DirAt(p0, env, name), ShellAt(p0, env, name))
  {
    code, p, remaining := CarveDir(env, name, buf, p0, room);
    if code != EOK {
      NoDirEnds(env, name, code, p0, room, p, remaining);
      return;
    }
    code, p, remaining := ShellLast(env, name, buf, p0, p0, p, remaining);
  }

  lemma NoDirEnds(env: Env, name: CString, code: Errno, p0: nat, room: nat, p: nat, remaining: nat)
    requires DirFromHome(env, name).None?
    requires code == (if DirFallback(env).Broken? then ENOMEM else ERANGE)
    requires code == ERANGE ==> room < DirNeed(env, name)
    ensures RestEnds(env, name, code, p0, room, p, remaining)
  {
  }

  /** The shell, when the directory has been stored at the start. */
  method ShellLast(env: Env, name: CString, buf: array<char>, ghost start: nat, ghost first: nat, p0: nat, room: nat)
    returns (code: Errno, p: nat, remaining: nat)
    requires p0 + room == buf.Length && ShellFromEnv(env).None?
    requires DirFromHome(env, name).Some? || !DirFallback(env).Broken?
    requires !(env.functions && env.status.NerrUserNotFound?)
    requires p0 == start + DirNeed(env, name)
    requires first == if DirFromHome(env, name).Some? then p0 else start
    requires Field(buf[..], start, WrittenDir(env, name, buf.Length - start))
    modifies buf
    ensures buf[..p0] == old(buf[..p0])
    ensures RestEnds(env, name, code, first, p0 + room - first, p, remaining)
    ensures code == EOK ==> Carved(buf[..], start, env, name, DirAt(start, env, name), ShellAt(start, env, name))
  {
    code, p, remaining := ShellBehind(env, name, buf, start, p0, room);
  }

  method CarveDir(env: Env, name: CString, buf: array<char>, p0: nat, room: nat)
    returns (code: Errno, p: nat, remaining: nat)
    requires p0 + room == buf.Length && DirFromHome(env, name).None?
    modifies buf
    ensures buf[..p0] == old(buf[..p0])
    ensures code == (if DirFallback(env).Broken? then ENOMEM else if room < DirNeed(env, name) then ERANGE else EOK)
    ensures code == EOK ==> p == p0 + DirNeed(env, name) && p + remaining == buf.Length
    ensures code == EOK ==> Field(buf[..], p0, WrittenDir(env, name, buf.Length - p0))
  {
    var needed;
    code, needed := StoreFallback(InfoUsable(env), env.infoDir, env.profile, env.registry, env.defaultDir, buf, p0,
                                  room);
    p, remaining := p0, room;
    if code == EOK {
      p, remaining := p0 + needed, room - needed;
    }
  }

  method CarveShell(env: Env, buf: array<char>, p0: nat, room: nat)
    returns (code: Errno, p: nat, remaining: nat)
    requires p0 + room == buf.Length && ShellFromEnv(env).None?
    modifies buf
    ensures buf[..p0] == old(buf[..p0])
    ensures code == (if ShellFallback(env).Broken? then ENOMEM else if room < ShellNeed(env) then ERANGE else EOK)
    ensures code == EOK ==> p == p0 + ShellNeed(env) && p + remaining == buf.Length
    ensures code == EOK ==> Field(buf[..], p0, WrittenShell(env, buf.Length - p0))
  {
    var needed;
    code, needed := StoreFallback(InfoUsable(env), env.infoShell, env.comspec, NoValue, env.defaultShell, buf, p0,
                                  room);
    p, remaining := p0, room;
    if code == EOK {
      p, remaining := p0 + needed, room - needed;
    }
  }

  // ---------------------------------------------------------------------------------------
  // getpwnam_r and getpwuid_r
  // ---------------------------------------------------------------------------------------

  /** The error of getpwnam_r, whose arguments are in order, for a name that the system knows. */
  function NamedCode(env: Env, name: CString, dll: bool, converts: bool, wideOk: bool, size: nat): Errno {
    if size < |name| + 1 then ERANGE
    else if !dll then ENOEXEC
    else if !converts then EIO
    else if !wideOk then ENOMEM
    else CarveCode(env, name, size - |name| - 1)
  }

  /** Where the strings of the filled record start. */
  datatype Record = Record(nameAt: nat, dirAt: nat, shellAt: nat)

  /**
   getpwnam_r. `result` is the record, or None where the function leaves NULL. Success needs the
   name, the directory and the shell to fit, and nothing else once the calls around them succeed.
   */
  method GetPwNamR(name: Option<CString>, lookup: Lookup, dll: bool, converts: bool, wideOk: bool,
                   env: Env, outputs: bool, buf: array?<char>)
    returns (code: Errno, result: Option<Record>, ghost used: nat)
    modifies if buf != null then {buf} else {}
    ensures code == EINVAL <==> name == None || !outputs || buf == null
    ensures result.Some? <==>
            && code != EINVAL && lookup == Mapped && dll && converts && wideOk
            && Usable(env, name.value) && |name.value| + 1 + Need(env, name.value) <= buf.Length
    ensures result.Some? ==> code == EOK && FilledRecord(buf[..], env, name.value, result.value, used)
    ensures code == ERANGE ==> |name.value| + 1 + Need(env, name.value) > buf.Length
    ensures code == EOK && result == None <==> code != EINVAL && lookup == NoneMapped
    ensures code != EINVAL ==> code == match lookup
      case NoneMapped => EOK
      case LookupFailed => EIO
      case Mapped => NamedCode(env, name.value, dll, converts, wideOk, buf.Length)
  {
    used := 0;
    if name == None || !outputs || buf == null {
      return EINVAL, None, 0;
    }
    if lookup == NoneMapped {
      return EOK, None, 0;
    }
    if lookup == LookupFailed {
      return EIO, None, 0;
    }
    var remaining := buf.Length;
    var len := |name.value| + 1;
    if remaining < len {
      return ERANGE, None, 0;
    }
    Store(buf, 0, name.value);
    ghost var b := buf[..];
    var p := len;
    remaining := remaining - len;
    if !dll {
      return ENOEXEC, None, 0;
    }
    if !converts {
      return EIO, None, 0;
    }
    if !wideOk {
      return ENOMEM, None, 0;
    }
    var dirAt, shellAt;
    code, dirAt, shellAt, used, remaining := Carve(env, name.value, buf, p, remaining);
    if code != EOK {
      return code, None, 0;
    }
    FieldKept(b, buf[..], 0, name.value, 0, len);
    result := Some(Record(0, dirAt, shellAt));
  }

  /** What the record means: three strings in the buffer, and how much of it is used. */
  ghost predicate FilledRecord(b: seq<char>, env: Env, name: CString, r: Record, used: nat) {
    && r.nameAt == 0 && Field(b, 0, name)
    && Carved(b, |name| + 1, env, name, r.dirAt, r.shellAt)
    && used == |name| + 1 + Need(env, name) <= |b|
  }

  /**
   getpwuid_r, for uid 0, which every user has here. `user` is the name GetUserNameW gives,
   converted; None when it cannot be obtained, with the error the function reports.
   */
  method GetPwUidR(uid: int, user: Option<CString>, error: Errno, dll: bool, env: Env,
                   outputs: bool, buf: array?<char>)
    returns (code: Errno, result: Option<Record>, ghost used: nat)
    requires error == ENOENT || error == ENOMEM || error == EIO
    modifies if buf != null then {buf} else {}
    ensures code == EINVAL <==> !outputs || buf == null
    ensures result.Some? <==>
            && code != EINVAL && uid == 0 && user.Some? && dll
            && Usable(env, user.value) && |user.value| + 1 + Need(env, user.value) <= buf.Length
    ensures result.Some? ==> code == EOK && FilledRecord(buf[..], env, user.value, result.value, used)
    ensures code == ERANGE ==> user.Some? && |user.value| + 1 + Need(env, user.value) > buf.Length
    ensures code == EOK && result == None <==> code != EINVAL && uid != 0
    ensures code != EINVAL && uid == 0 ==>
      code == if user == None then error else NamedCode(env, user.value, dll, true, true, buf.Length)
  {
    used := 0;
    if !outputs || buf == null {
      return EINVAL, None, 0;
    }
    if uid != 0 {
      return EOK, None, 0;
    }
    if user == None {
      return error, None, 0;
    }
    var remaining := buf.Length;
    var len := |user.value| + 1;
    if remaining < len {
      return ERANGE, None, 0;
    }
    Store(buf, 0, user.value);
    ghost var b := buf[..];
    var p := len;
    remaining := remaining - len;
    if !dll {
      return ENOEXEC, None, 0;
    }
    var dirAt, shellAt;
    code, dirAt, shellAt, used, remaining := Carve(env, user.value, buf, p, remaining);
    if code != EOK {
      return code, None, 0;
    }
    FieldKept(b, buf[..], 0, user.value, 0, len);
    result := Some(Record(0, dirAt, shellAt));
  }

  // ---------------------------------------------------------------------------------------
  // What the caller can rely on
  // ---------------------------------------------------------------------------------------

  /** The C string at an index of the buffer. */
  function StringAt(b: seq<char>, at: nat): (r: CString)
    decreases |b| - at
  {
    if at >= |b| || b[at] == NUL then "" else [b[at]] + StringAt(b, at + 1)
  }

  predicate Apart(at: nat, text: string, at': nat, text': string) {
    at + |text| < at' || at' + |text'| < at
  }

  /** The record's strings read back as the name and as what was written for the directory and the shell. */
  lemma {:induction false} RecordReadsBack(b: seq<char>, env: Env, name: CString, r: Record, used: nat)
    requires FilledRecord(b, env, name, r, used)
    ensures StringAt(b, r.nameAt) == name
    ensures StringAt(b, r.dirAt) == ShownDir(env, name, |b| - r.dirAt)
    ensures StringAt(b, r.shellAt) == WrittenShell(env, |b| - r.shellAt)
  {
    FieldReads(b, 0, name);
    ShownIsCString(env, name, |b| - r.dirAt);
    FieldReads(b, r.dirAt, ShownDir(env, name, |b| - r.dirAt));
    FieldReads(b, r.shellAt, WrittenShell(env, |b| - r.shellAt));
  }

  lemma {:induction false} FieldReads(b: seq<char>, at: nat, text: CString)
    requires Field(b, at, text)
    ensures StringAt(b, at) == text
  {
    FieldReadsFrom(b, at, text, 0);
    assert text[0..] == text;
  }

  lemma {:induction false} FieldReadsFrom(b: seq<char>, at: nat, text: CString, k: nat)
    requires k <= |text| && FieldFrom(b, at, text, k)
    ensures StringAt(b, at + k) == text[k..]
    decreases |text| - k
  {
    if k < |text| {
      FieldReadsFrom(b, at, text, k + 1);
      assert text[k..] == [text[k]] + text[k + 1..];
    }
  }

  lemma ShownIsCString(env: Env, name: CString, room: int)
    ensures NUL !in ShownDir(env, name, room)
  {
    if DirFromHome(env, name).Some? {
      SiblingIsCString(env.home.value, name);
    } else if RunsIntoShell(env, name, room) {
      ConcatIsCString(WrittenDir(env, name, room)[..2], WrittenShell(env, room - 2));
    }
  }

  lemma ConcatIsCString(a: CString, b: CString)
    ensures NUL !in a + b
  {
  }

  /** A directory taken from HOME is the parent of HOME, a backslash and the name. */
  lemma DirBesideHome(env: Env, name: CString, parent: string, sep: char, leaf: string, trail: string)
    requires env.home.Some? && env.dupOk && Shape(env.home.value, parent, sep, leaf, trail)
    ensures DirText(env, name) == parent + "\\" + name
  {
    ParentExactly(env.home.value, parent);
  }

  /**
   The strings of the record, as they are read from the buffer, are pairwise apart exactly when the
   directory does not come from a variable that is set but empty, or the shell was there before it,
   or what is written for the directory fits into the two bytes set aside.
   */
  lemma {:induction false} StringsApartExactly(b: seq<char>, env: Env, name: CString, r: Record, used: nat)
    requires FilledRecord(b, env, name, r, used) && Usable(env, name)
    ensures var n, d, s := StringAt(b, r.nameAt), StringAt(b, r.dirAt), StringAt(b, r.shellAt);
      && Apart(r.nameAt, n, r.dirAt, d) && Apart(r.nameAt, n, r.shellAt, s)
      && (Apart(r.dirAt, d, r.shellAt, s)
          <==> || !EmptyDirVariable(env, name) || ShellFromEnv(env).Some?
               || |WrittenDir(env, name, |b| - r.dirAt)| < 2)
  {
    RecordReadsBack(b, env, name, r, used);
    RecordPlaces(b, env, name, r, used);
    PlacesApartExactly(|name| + 1, env, name, |b|);
  }

  lemma RecordPlaces(b: seq<char>, env: Env, name: CString, r: Record, used: nat)
    requires FilledRecord(b, env, name, r, used)
    ensures r.nameAt == 0
    ensures r.dirAt == DirAt(|name| + 1, env, name) > |name| && r.shellAt == ShellAt(|name| + 1, env, name) > |name|
  {
  }

  /** The same about the places at which the texts are written. */
  lemma PlacesApartExactly(start: nat, env: Env, name: CString, size: nat)
    requires Usable(env, name)
    ensures var dirAt, shellAt := DirAt(start, env, name), ShellAt(start, env, name);
      Apart(dirAt, ShownDir(env, name, size - dirAt), shellAt, WrittenShell(env, size - shellAt))
      <==> || !EmptyDirVariable(env, name) || ShellFromEnv(env).Some?
           || |WrittenDir(env, name, size - dirAt)| < 2
  {
  }

  /** The directory that is meant: a variable that is set but empty reads as unset. */
  function MeantDir(env: Env, name: CString): string {
    if !EmptyDirVariable(env, name) then DirText(env, name)
    else if env.registry.Value? && env.registry.sz then env.registry.text
    else env.defaultDir
  }

  function MeantShell(env: Env): string {
    if EmptyShellVariable(env) then env.defaultShell else ShellText(env)
  }

  /** For an empty variable: the text fits, and so does a registry value of another type, if anything is meant. */
  predicate MeantFits(env: Env, meant: string, room: int) {
    && |meant| < room
    && (env.registry.Value? && !env.registry.sz && meant != "" ==> |env.registry.text| < room)
  }

  /**
   The record shows the directory that is meant exactly when it does not come from an empty variable,
   or it fits and the shell does not run over it (or happens to continue it).
   */
  lemma {:induction false} ShowsMeantDirExactly(b: seq<char>, env: Env, name: CString, r: Record, used: nat)
    requires FilledRecord(b, env, name, r, used) && Usable(env, name)
    ensures var meant, room := MeantDir(env, name), |b| - r.dirAt;
      StringAt(b, r.dirAt) == meant
      <==> || !EmptyDirVariable(env, name)
           || (&& MeantFits(env, meant, room)
               && (ShellFromEnv(env).Some? || |meant| < 2 || WrittenShell(env, room - 2) == meant[2..]))
  {
    RecordReadsBack(b, env, name, r, used);
    RecordRoom(b, env, name, r, used);
    if ShellFromEnv(env).None? && EmptyDirVariable(env, name) {
      ShellFits(b, env, name, r, used);
    }
    ShownIsMeantExactly(env, name, |b| - r.dirAt);
  }

  /** The shell that is meant: the default of an empty variable has to fit into the rest of the buffer. */
  lemma {:induction false} ShowsMeantShellExactly(b: seq<char>, env: Env, name: CString, r: Record, used: nat)
    requires FilledRecord(b, env, name, r, used) && Usable(env, name)
    ensures StringAt(b, r.shellAt) == MeantShell(env)
      <==> !EmptyShellVariable(env) || |env.defaultShell| < |b| - r.shellAt
  {
    RecordReadsBack(b, env, name, r, used);
    RecordRoom(b, env, name, r, used);
    WrittenIsMeantExactly(env, |b| - r.shellAt);
  }

  lemma ShellFits(b: seq<char>, env: Env, name: CString, r: Record, used: nat)
    requires FilledRecord(b, env, name, r, used) && ShellFromEnv(env).None? && EmptyDirVariable(env, name)
    ensures var room := |b| - r.dirAt; |WrittenShell(env, room - 2)| < room - 2
  {
  }

  /** Behind each place at least the bytes set aside for it are left. */
  lemma RecordRoom(b: seq<char>, env: Env, name: CString, r: Record, used: nat)
    requires FilledRecord(b, env, name, r, used)
    ensures |b| - r.dirAt >= DirNeed(env, name) && |b| - r.shellAt >= ShellNeed(env)
  {
  }

  lemma ShownIsMeantExactly(env: Env, name: CString, room: int)
    requires EmptyDirVariable(env, name) ==> room >= 2
    requires ShellFromEnv(env).None? && EmptyDirVariable(env, name) ==> |WrittenShell(env, room - 2)| < room - 2
    ensures var meant := MeantDir(env, name);
      ShownDir(env, name, room) == meant
      <==> || !EmptyDirVariable(env, name)
           || (&& MeantFits(env, meant, room)
               && (ShellFromEnv(env).Some? || |meant| < 2 || WrittenShell(env, room - 2) == meant[2..]))
  {
    var written, meant := WrittenDir(env, name, room), MeantDir(env, name);
    if RunsIntoShell(env, name, room) {
      var shell := WrittenShell(env, room - 2);
      assert written == written[..2] + written[2..];
      assert (written[..2] + shell)[2..] == shell;
    }
  }

  lemma WrittenIsMeantExactly(env: Env, room: int)
    requires EmptyShellVariable(env) ==> room >= 2
    ensures WrittenShell(env, room) == MeantShell(env) <==> !EmptyShellVariable(env) || |env.defaultShell| < room
  {
  }

  /**
   The case in which strings overlap: two bytes are set aside for an empty directory variable,
   although the directory of the registry, or the default one, is written there. A shell that is not
   in SHELL is stored from the third byte on, and the directory reads as its drive and the shell.
   */
  lemma {:induction false} EmptyVariableOverlaps(b: seq<char>, env: Env, name: CString, r: Record, used: nat)
    requires FilledRecord(b, env, name, r, used) && RunsIntoShell(env, name, |b| - r.dirAt)
    ensures r.shellAt == r.dirAt + 2
    ensures StringAt(b, r.dirAt) == WrittenDir(env, name, |b| - r.dirAt)[..2] + StringAt(b, r.shellAt)
  {
    RecordReadsBack(b, env, name, r, used);
  }

  /** Such a call: no HOME, no SHELL, an empty USERPROFILE, and a buffer that the default fits into. */
  lemma OverlappingInput() returns (env: Env)
    ensures AsCompiled(env) && env.registry == NoValue && Usable(env, "u") && Need(env, "u") == 5
    ensures env.defaultDir == "C:\\Users\\Default" && env.defaultShell == "C:\\Windows\\System32\\cmd.exe"
    ensures forall room :: room > 16 ==> RunsIntoShell(env, "u", room)
  {
    env := Env(None, None, true, false, NerrSuccess, Absent, Absent, Some(""), NoValue, Some("a"),
               DEFAULT_DIR, DEFAULT_SHELL);
  }

  /** Another, in a smaller buffer: the directory of the registry fits, and reads as its drive and the shell. */
  lemma OverlappingRegistryInput(dir: CString) returns (env: Env)
    requires dir == "C:\\u"
    ensures AsCompiled(env) && env.registry == Value(dir, true) && Usable(env, "u") && Need(env, "u") == 5
    ensures RunsIntoShell(env, "u", 8) && ShownDir(env, "u", 8) == dir[..2] + "a"
  {
    env := Env(None, None, true, false, NerrSuccess, Absent, Absent, Some(""), Value(dir, true), Some("a"),
               DEFAULT_DIR, DEFAULT_SHELL);
  }
}
