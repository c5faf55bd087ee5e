/**
 * The argument and environment blob of a macOS process (the answer to the
 * `sysctl` query CTL_KERN, KERN_PROCARGS2 for one pid) and how
 * `MacOSProcess.queryArgsAndEnvironment` decodes it: an `int` argument
 * count, the executable path, `nargs` NUL-terminated arguments, and then
 * NUL-terminated `KEY=VALUE` strings read as environment entries up to the
 * end of the `ARGMAX`-byte buffer.
 */
module ProcArgs {
  import opened Wrappers
  import opened JavaInt
  import opened Bytes

  const INT_SIZE: nat := 4
  /** The sanity bound on the argument count. */
  const MAX_NARGS: int := 1024

  /** A `LinkedHashMap<String, String>`: its entries in insertion order. */
  type Env = seq<(Str, Str)>

  function Keys(env: Env): (ks: seq<Str>)
    ensures |ks| == |env| && forall i :: 0 <= i < |env| ==> ks[i] == env[i].0
  {
    seq(|env|, i requires 0 <= i < |env| => env[i].0)
  }

  predicate UniqueKeys(env: Env)
  {
    forall i, j :: 0 <= i < j < |env| ==> env[i].0 != env[j].0
  }

  /** The position of key `k`, or -1. */
  function KeyIndex(env: Env, k: Str): (i: int)
    ensures -1 <= i < |env|
    ensures i == -1 <==> k !in Keys(env)
    ensures i >= 0 ==> env[i].0 == k && forall j :: 0 <= j < i ==> env[j].0 != k
  {
    var i := KeyIndexFrom(env, k, 0);
    assert i == -1 ==> forall j :: 0 <= j < |env| ==> Keys(env)[j] != k;
    i
  }

  /** The first position at or after `from` holding key `k`, or -1. */
  function KeyIndexFrom(env: Env, k: Str, from: nat): (i: int)
    requires from <= |env|
    ensures -1 <= i < |env|
    ensures i == -1 <==> forall j :: from <= j < |env| ==> env[j].0 != k
    ensures i >= 0 ==> from <= i && env[i].0 == k && forall j :: from <= j < i ==> env[j].0 != k
    decreases |env| - from
  {
    if from == |env| then -1
    else if env[from].0 == k then from
    else KeyIndexFrom(env, k, from + 1)
  }

  /** `get(k)`. */
  function Lookup(env: Env, k: Str): Option<Str>
  {
    var i := KeyIndex(env, k);
    if i == -1 then None else Some(env[i].1)
  }

  lemma KeyIndexAt(env: Env, k: Str, i: nat)
    requires UniqueKeys(env) && i < |env| && env[i].0 == k
    ensures KeyIndex(env, k) == i
  {
    assert Keys(env)[i] == k;
  }

  /**
   * `put(k, v)`: an existing key keeps its position and takes the new value;
   * a new key is appended. Every other key keeps its value.
   */
  function Put(env: Env, k: Str, v: Str): (r: Env)
    requires UniqueKeys(env)
    ensures UniqueKeys(r)
    ensures Lookup(r, k) == Some(v)
    ensures forall k' :: k' != k ==> Lookup(r, k') == Lookup(env, k')
    ensures Keys(r) == if k in Keys(env) then Keys(env) else Keys(env) + [k]
  {
    var i := KeyIndex(env, k);
    if i >= 0 then
      var r := env[i := (k, v)];
      assert Keys(r) == Keys(env);
      KeyIndexAt(r, k, i);
      PutKeepsOthers(env, r, k);
      r
    else
      var r := env + [(k, v)];
      assert Keys(r) == Keys(env) + [k];
      KeyIndexAt(r, k, |env|);
      PutKeepsOthers(env, r, k);
      r
  }

  lemma PutKeepsOthers(env: Env, r: Env, k: Str)
    requires UniqueKeys(env) && UniqueKeys(r) && |env| <= |r|
    requires forall i :: 0 <= i < |env| && env[i].0 != k ==> r[i] == env[i]
    requires forall i :: 0 <= i < |r| && (i >= |env| || env[i].0 == k) ==> r[i].0 == k
    ensures forall k' :: k' != k ==> Lookup(r, k') == Lookup(env, k')
  {
    forall k' | k' != k ensures Lookup(r, k') == Lookup(env, k') {
      var i := KeyIndex(env, k');
      if i >= 0 {
        KeyIndexAt(r, k', i);
      }
    }
  }

  /**
   * The entry a post-argument string contributes: split at its first `=`,
   * provided that `=` is not the first character.
   */
  function EnvEntry(s: Str): (r: Option<(Str, Str)>)
    ensures r.None? <==> EQUALS !in s || s[0] == EQUALS
    ensures r.Some? ==> s == r.value.0 + [EQUALS] + r.value.1
    ensures r.Some? ==> |r.value.0| > 0 && EQUALS !in r.value.0
  {
    var idx := IndexOf(s, EQUALS);
    if idx > 0 then
      assert s == s[..idx] + [EQUALS] + s[idx + 1..];
      Some((s[..idx], s[idx + 1..]))
    else None
  }

  /** Adds one post-argument string to the environment, if it is an entry. */
  function AddEntry(env: Env, s: Str): (r: Env)
    requires UniqueKeys(env)
    ensures UniqueKeys(r)
  {
    match EnvEntry(s)
    case None => env
    case Some((k, v)) => Put(env, k, v)
  }

  predicate WellFormedKeys(env: Env)
  {
    forall i :: 0 <= i < |env| ==> |env[i].0| > 0 && EQUALS !in env[i].0
  }

  /** The environment built from the post-argument strings, in reading order. */
  function EnvOf(ss: seq<Str>): (r: Env)
    ensures UniqueKeys(r)
  {
    if |ss| == 0 then []
    else
      var init := EnvOf(ss[..|ss| - 1]);
      var r := AddEntry(init, ss[|ss| - 1]);
      r
  }

  /** Every key is non-empty and free of `=`: it is the text before the first `=` of its string. */
  lemma {:induction false} EnvKeysWellFormed(ss: seq<Str>)
    ensures WellFormedKeys(EnvOf(ss))
    ensures |EnvOf(ss)| <= |ss|
  {
    if |ss| > 0 {
      EnvKeysWellFormed(ss[..|ss| - 1]);
      AddEntryWellFormed(EnvOf(ss[..|ss| - 1]), ss[|ss| - 1]);
    }
  }

  lemma AddEntryWellFormed(env: Env, s: Str)
    requires UniqueKeys(env) && WellFormedKeys(env)
    ensures WellFormedKeys(AddEntry(env, s)) && |AddEntry(env, s)| <= |env| + 1
  {
    match EnvEntry(s)
    case None =>
    case Some((k, v)) =>
      var r := Put(env, k, v);
      assert Keys(r) == if k in Keys(env) then Keys(env) else Keys(env) + [k];
      forall i | 0 <= i < |r| ensures |r[i].0| > 0 && EQUALS !in r[i].0 {
        assert r[i].0 == Keys(r)[i];
        if i < |env| {
          assert Keys(env)[i] == env[i].0;
        }
      }
  }

  /** Reference reading: the value of `k` is the one in the last string that assigns it. */
  function LastAssignment(ss: seq<Str>, k: Str): Option<Str>
  {
    if |ss| == 0 then None
    else match EnvEntry(ss[|ss| - 1])
      case Some((k', v)) => if k' == k then Some(v) else LastAssignment(ss[..|ss| - 1], k)
      case None => LastAssignment(ss[..|ss| - 1], k)
  }

  /** A repeated key ends with the value of its last assignment. */
  lemma {:induction false} EnvLookupIsLastAssignment(ss: seq<Str>, k: Str)
    ensures Lookup(EnvOf(ss), k) == LastAssignment(ss, k)
  {
    if |ss| > 0 {
      EnvLookupIsLastAssignment(ss[..|ss| - 1], k);
    }
  }

  lemma EnvOfSnoc(ss: seq<Str>, s: Str)
    ensures EnvOf(ss + [s]) == AddEntry(EnvOf(ss), s)
  {
    assert (ss + [s])[..|ss|] == ss;
  }

  /** Strings without an `=` past their first byte (the empty string included) add nothing. */
  lemma {:induction false} EnvOfIgnoresNonEntries(ss: seq<Str>, junk: seq<Str>)
    requires forall k :: 0 <= k < |junk| ==> EnvEntry(junk[k]).None?
    ensures EnvOf(ss + junk) == EnvOf(ss)
  {
    if |junk| > 0 {
      var init, last := junk[..|junk| - 1], junk[|junk| - 1];
      assert ss + junk == (ss + init) + [last];
      EnvOfIgnoresNonEntries(ss, init);
      EnvOfSnoc(ss + init, last);
    } else {
      assert ss + junk == ss;
    }
  }

  /** How many of the strings read are arguments: `nargs`, clamped to what was read. */
  function ArgCount(nargs: int, available: nat): (n: nat)
    ensures n <= available && (0 <= nargs ==> n <= nargs)
    ensures n < available ==> n == nargs || nargs < 0
  {
    if nargs < 0 then 0 else if nargs > available then available else nargs
  }

  /** Splits the strings read into the first `nargs` arguments and the environment of the rest. */
  function ArgsAndEnv(strings: seq<Str>, nargs: int): (seq<Str>, Env)
  {
    var n := ArgCount(nargs, |strings|);
    (strings[..n], EnvOf(strings[n..]))
  }

  /** A buffer as the sysctl wrapper hands it over: `ARGMAX` bytes, room for the count, NUL at the end. */
  predicate WellFormedBuffer(b: seq<Byte>, argmax: int)
  {
    |b| == argmax && |b| > INT_SIZE && Terminated(b)
  }

  /** The `int` at offset 0, in the little-endian order of macOS hardware. */
  function ReadInt32(b: seq<Byte>): Int32
    requires |b| >= 4
  {
    var u: int := b[0] as int + 256 * (b[1] as int) + 65536 * (b[2] as int) + 16777216 * (b[3] as int);
    if u < 0x8000_0000 then u else u - TWO_32
  }

  /** A buffer suffix the strings are read from: empty, or ending in a NUL. */
  predicate Readable(s: seq<Byte>)
  {
    s == [] || Terminated(s)
  }

  /** Every NUL-terminated string of a readable suffix, in order. */
  function StringsOf(s: seq<Byte>): seq<Str>
    requires Readable(s)
    decreases |s|
  {
    if |s| == 0 then []
    else
      var e := NextNul(s, 0);
      [s[..e]] + StringsOf(s[e + 1..])
  }

  /** Every NUL-terminated string read from `offset` to the end of the buffer. */
  function Strings(b: seq<Byte>, offset: nat): seq<Str>
    requires Terminated(b) && offset <= |b|
  {
    StringsOf(b[offset..])
  }

  /** The next NUL of a suffix is the next NUL of the buffer, shifted. */
  lemma {:induction false} NextNulOfSuffix(b: seq<Byte>, offset: nat, i: nat)
    requires Terminated(b) && offset <= i < |b|
    ensures NextNul(b[offset..], i - offset) == NextNul(b, i) - offset
    decreases |b| - i
  {
    if b[i] != NUL {
      NextNulOfSuffix(b, offset, i + 1);
    }
  }

  /** Reading one string at `offset` and then the rest. */
  lemma StringsStep(b: seq<Byte>, offset: nat)
    requires Terminated(b) && offset < |b|
    ensures Strings(b, offset) == [CString(b, offset)] + Strings(b, offset + |CString(b, offset)| + 1)
  {
    var e := NextNul(b, offset);
    NextNulOfSuffix(b, offset, offset);
    assert b[offset..][..e - offset] == b[offset..e];
    assert b[offset..][e - offset + 1..] == b[e + 1..];
  }

  /** The offset just past the executable path that follows the count. */
  function ExecPathEnd(b: seq<Byte>): (off: nat)
    requires |b| > INT_SIZE && Terminated(b)
    ensures INT_SIZE < off <= |b| && b[off - 1] == NUL
  {
    INT_SIZE + |CString(b, INT_SIZE)| + 1
  }

  /** The first offset at or after `offset` that does not hold a NUL (or the end). */
  function SkipNuls(b: seq<Byte>, offset: nat): (r: nat)
    requires offset <= |b|
    ensures offset <= r <= |b|
    ensures forall k :: offset <= k < r ==> b[k] == NUL
    ensures r < |b| ==> b[r] != NUL
    decreases |b| - offset
  {
    if offset == |b| || b[offset] != NUL then offset else SkipNuls(b, offset + 1)
  }

  /**
   * What `queryArgsAndEnvironment` returns for the sysctl answer `m`
   * (`None` when the call failed): nothing unless the count is in
   * [1, 1024]; otherwise the strings after the executable path, split into
   * arguments and environment.
   */
  function ArgsAndEnvAsWritten(m: Option<seq<Byte>>): (r: (seq<Str>, Env))
    requires m.Some? ==> WellFormedBuffer(m.value, |m.value|)
    ensures m.None? || !(0 < ReadInt32(m.value) <= MAX_NARGS) ==> r == ([], [])
    ensures m.Some? && 0 < ReadInt32(m.value) <= MAX_NARGS ==>
      |r.0| <= |Strings(m.value, ExecPathEnd(m.value))| &&
      r.0 == Strings(m.value, ExecPathEnd(m.value))[..|r.0|] &&
      |r.0| <= ReadInt32(m.value) &&
      (|r.0| == ReadInt32(m.value) || |r.0| == |Strings(m.value, ExecPathEnd(m.value))|) &&
      r.1 == EnvOf(Strings(m.value, ExecPathEnd(m.value))[|r.0|..])
    ensures |r.0| <= MAX_NARGS && UniqueKeys(r.1)
  {
    match m
    case None => ([], [])
    case Some(b) =>
      var nargs := ReadInt32(b);
      if 0 < nargs <= MAX_NARGS then ArgsAndEnv(Strings(b, ExecPathEnd(b)), nargs) else ([], [])
  }

  /**
   * The same decoding with the run of NUL bytes that pads the executable
   * path skipped before the first argument is read.
   */
  function ArgsAndEnvSkippingPadding(m: Option<seq<Byte>>): (r: (seq<Str>, Env))
    requires m.Some? ==> WellFormedBuffer(m.value, |m.value|)
    ensures m.None? || !(0 < ReadInt32(m.value) <= MAX_NARGS) ==> r == ([], [])
    ensures m.Some? && 0 < ReadInt32(m.value) <= MAX_NARGS ==>
      var strings := Strings(m.value, SkipNuls(m.value, ExecPathEnd(m.value)));
      |r.0| <= |strings| && r.0 == strings[..|r.0|] && |r.0| <= ReadInt32(m.value) &&
      (|r.0| == ReadInt32(m.value) || |r.0| == |strings|) && r.1 == EnvOf(strings[|r.0|..])
    ensures |r.0| <= MAX_NARGS && UniqueKeys(r.1)
  {
    match m
    case None => ([], [])
    case Some(b) =>
      var nargs := ReadInt32(b);
      if 0 < nargs <= MAX_NARGS then ArgsAndEnv(Strings(b, SkipNuls(b, ExecPathEnd(b))), nargs) else ([], [])
  }

  /**
   * The loop of `queryArgsAndEnvironment`: from `start` to `ARGMAX`, each
   * string read is an argument while the count lasts and an environment
   * candidate afterwards; the offset advances by the string's length plus
   * its terminator, and an empty string does not end the loop.
   */
  method ScanStrings(b: seq<Byte>, argmax: int, start: nat, nargs: Int32) returns (args: seq<Str>, env: Env)
    requires WellFormedBuffer(b, argmax) && start <= argmax
    ensures (args, env) == ArgsAndEnv(Strings(b, start), nargs)
  {
    args := [];
    env := [];
    var offset := start;
    var n: int := nargs;
    ghost var read: seq<Str> := [];
    ghost var rest := Strings(b, start);
    assert read + rest == Strings(b, start);
    while offset < argmax
      invariant offset <= argmax
      invariant Strings(b, start) == read + rest
      invariant rest == Strings(b, offset)
      invariant n == nargs - |read|
      invariant args == ArgsAndEnv(read, nargs).0 && env == ArgsAndEnv(read, nargs).1
      decreases argmax - offset
    {
      var arg := CString(b, offset);
      StringsStep(b, offset);
      if n > 0 {
        ArgStep(read, arg, nargs);
        args := args + [arg];
      } else {
        EnvStep(read, arg, nargs);
        env := AddEntry(env, arg);
      }
      n := n - 1;
      assert rest == [arg] + Strings(b, offset + |arg| + 1);
      SplitFirst(read, rest);
      read := read + [arg];
      rest := rest[1..];
      offset := offset + |arg| + 1;
    }
    assert b[offset..] == [];
    assert read == read + rest;
  }

  lemma SplitFirst<T>(read: seq<T>, rest: seq<T>)
    requires rest != []
    ensures read + rest == (read + [rest[0]]) + rest[1..]
  {
    assert rest == [rest[0]] + rest[1..];
  }

  lemma ArgStep(read: seq<Str>, s: Str, nargs: int)
    requires |read| < nargs
    ensures ArgsAndEnv(read + [s], nargs).0 == ArgsAndEnv(read, nargs).0 + [s]
    ensures ArgsAndEnv(read + [s], nargs).1 == ArgsAndEnv(read, nargs).1
  {
    var n := ArgCount(nargs, |read|);
    var read' := read + [s];
    assert ArgCount(nargs, |read'|) == n + 1;
    assert read'[..n + 1] == read[..n] + [s];
    assert read'[n + 1..] == read[n..];
  }

  lemma EnvStep(read: seq<Str>, s: Str, nargs: int)
    requires |read| >= nargs
    ensures ArgsAndEnv(read + [s], nargs).0 == ArgsAndEnv(read, nargs).0
    ensures ArgsAndEnv(read + [s], nargs).1 == AddEntry(ArgsAndEnv(read, nargs).1, s)
  {
    var n := ArgCount(nargs, |read|);
    var read' := read + [s];
    assert ArgCount(nargs, |read'|) == n;
    assert read'[..n] == read[..n];
    assert read'[n..][..|read'[n..]| - 1] == read[n..];
  }

  /** `queryArgsAndEnvironment`, as written (`m` is the sysctl answer, `None` for null). */
  method QueryArgsAndEnvironment(m: Option<seq<Byte>>, argmax: int) returns (args: seq<Str>, env: Env)
    requires m.Some? ==> WellFormedBuffer(m.value, argmax)
    ensures (args, env) == ArgsAndEnvAsWritten(m)
  {
    args := [];
    env := [];
    if m.Some? {
      var b := m.value;
      var nargs := ReadInt32(b);
      if nargs > 0 && nargs <= MAX_NARGS {
        var offset := INT_SIZE;
        var cmdLine := CString(b, offset);
        offset := offset + |cmdLine| + 1;
        args, env := ScanStrings(b, argmax, offset, nargs);
      }
    }
  }

  /** `queryArgsAndEnvironment` with the padding after the executable path skipped. */
  method QueryArgsAndEnvironmentSkippingPadding(m: Option<seq<Byte>>, argmax: int) returns (args: seq<Str>, env: Env)
    requires m.Some? ==> WellFormedBuffer(m.value, argmax)
    ensures (args, env) == ArgsAndEnvSkippingPadding(m)
  {
    args := [];
    env := [];
    if m.Some? {
      var b := m.value;
      var nargs := ReadInt32(b);
      if nargs > 0 && nargs <= MAX_NARGS {
        var offset := INT_SIZE;
        var cmdLine := CString(b, offset);
        offset := offset + |cmdLine| + 1;
        offset := SkipNuls(b, offset);
        args, env := ScanStrings(b, argmax, offset, nargs);
      }
    }
  }

  /** `queryCommandLine`: the arguments joined with single spaces, then trimmed. */
  function QueryCommandLine(args: seq<Str>): (r: Str)
    ensures r == [] || (!Blank(r[0]) && !Blank(r[|r| - 1]))
  {
    Trim(Join(args, SPACE))
  }

  /** Arguments with no blank byte, none of them empty. */
  predicate PlainArguments(args: seq<Str>)
  {
    forall k :: 0 <= k < |args| ==> args[k] != [] && forall j :: 0 <= j < |args[k]| ==> !Blank(args[k][j])
  }

  /** Splitting the command line at spaces gives plain arguments back. */
  lemma CommandLineRoundTrip(args: seq<Str>)
    requires |args| >= 1 && PlainArguments(args)
    ensures Split(QueryCommandLine(args), SPACE) == args
  {
    var j := Join(args, SPACE);
    JoinEnds(args, SPACE);
    var last := args[|args| - 1];
    assert !Blank(j[0]) && !Blank(j[|j| - 1]) by {
      assert !Blank(args[0][0]);
      assert !Blank(last[|last| - 1]);
    }
    TrimKeepsNonBlankEnds(j);
    forall k | 0 <= k < |args| ensures SPACE !in args[k] {
      forall i | 0 <= i < |args[k]| ensures args[k][i] != SPACE {
        assert !Blank(args[k][i]);
      }
    }
    SplitJoin(args, SPACE);
  }
}
