/**
 * The layout the kernel gives a KERN_PROCARGS2 answer, written as an
 * encoder, and what the two decodings of `ProcArgs` make of it: the count,
 * the executable path and its terminator, a run of NUL bytes that pads the
 * path, the NUL-terminated arguments, the NUL-terminated environment strings
 * and zero bytes up to the end of the buffer.
 */
module ProcArgsLayout {
  import opened Wrappers
  import opened JavaInt
  import opened Bytes
  import opened ProcArgs

  /** The little-endian two's-complement bytes of an `int`. */
  function EncodeInt32(x: Int32): (r: seq<Byte>)
    ensures |r| == 4
  {
    var u := if x >= 0 then x else x + TWO_32;
    [u % 256, (u / 256) % 256, (u / 65536) % 256, u / 16777216]
  }

  lemma ReadEncodeInt32(x: Int32, rest: seq<Byte>)
    ensures ReadInt32(EncodeInt32(x) + rest) == x
  {
    var u := if x >= 0 then x else x + TWO_32;
    var b := EncodeInt32(x) + rest;
    var q1, q2 := u / 256, u / 65536;
    assert u == 256 * q1 + u % 256;
    assert q1 == 256 * (q1 / 256) + q1 % 256;
    assert q1 / 256 == q2;
    assert q2 == 256 * (q2 / 256) + q2 % 256;
    assert q2 / 256 == u / 16777216;
    assert b[0] as int + 256 * (b[1] as int) + 65536 * (b[2] as int) + 16777216 * (b[3] as int) == u;
  }

  /** Each string followed by its NUL terminator. */
  function Terminate(ss: seq<Str>): seq<Byte>
  {
    if |ss| == 0 then [] else ss[0] + [NUL] + Terminate(ss[1..])
  }

  lemma {:induction false} TerminateAppend(xs: seq<Str>, ys: seq<Str>)
    ensures Terminate(xs + ys) == Terminate(xs) + Terminate(ys)
  {
    if |xs| > 0 {
      assert (xs + ys)[1..] == xs[1..] + ys;
      TerminateAppend(xs[1..], ys);
    } else {
      assert xs + ys == ys;
    }
  }

  predicate NoNul(ss: seq<Str>)
  {
    forall k :: 0 <= k < |ss| ==> NUL !in ss[k]
  }

  lemma Assoc<T>(x: seq<T>, y: seq<T>, z: seq<T>)
    ensures x + (y + z) == (x + y) + z
  {
  }

  /** `n` empty strings. */
  function Empties(n: nat): (r: seq<Str>)
    ensures |r| == n && forall k :: 0 <= k < n ==> r[k] == []
  {
    seq(n, _ => [])
  }

  /** A run of NUL bytes is the encoding of as many empty strings. */
  lemma {:induction false} ZerosAreEmpties(n: nat)
    ensures Zeros(n) == Terminate(Empties(n))
  {
    if n > 0 {
      ZerosAreEmpties(n - 1);
      assert Empties(n)[1..] == Empties(n - 1);
      assert Zeros(n) == [] + [NUL] + Zeros(n - 1);
    }
  }

  lemma NoNulAppend(xs: seq<Str>, ys: seq<Str>)
    requires (forall k :: 0 <= k < |xs| ==> xs[k] == []) || NoNul(xs)
    requires (forall k :: 0 <= k < |ys| ==> ys[k] == []) || NoNul(ys)
    ensures NoNul(xs + ys)
  {
  }

  /** A KERN_PROCARGS2 answer: `padding` NULs after the path and `tail` zero bytes at the end. */
  function Encode(execPath: Str, padding: nat, args: seq<Str>, env: seq<Str>, tail: nat): seq<Byte>
    requires |args| < 0x8000_0000
  {
    EncodeInt32(|args|) + execPath + [NUL] + Zeros(padding) + Terminate(args) + Terminate(env) + Zeros(tail)
  }

  /** Everything after the path's terminator encodes a list of strings. */
  lemma EncodeAsStrings(execPath: Str, padding: nat, args: seq<Str>, env: seq<Str>, tail: nat)
    requires |args| < 0x8000_0000
    ensures Encode(execPath, padding, args, env, tail) ==
      EncodeInt32(|args|) + execPath + [NUL] + Terminate(Empties(padding) + (args + env + Empties(tail)))
    ensures Terminate(Empties(padding) + (args + env + Empties(tail))) ==
      Zeros(padding) + Terminate(args + env + Empties(tail))
  {
    ZerosAreEmpties(padding);
    ZerosAreEmpties(tail);
    TerminateAppend(args, env);
    TerminateAppend(args + env, Empties(tail));
    TerminateAppend(Empties(padding), args + env + Empties(tail));
  }

  /** A NUL-free string and its terminator read back as that string. */
  lemma StringsOfCons(s: Str, tail: seq<Byte>)
    requires NUL !in s && Readable(tail)
    ensures Readable(s + [NUL] + tail)
    ensures StringsOf(s + [NUL] + tail) == [s] + StringsOf(tail)
  {
    var x := s + [NUL] + tail;
    assert x[|x| - 1] == NUL by {
      if |tail| > 0 {
        assert x[|x| - 1] == tail[|tail| - 1];
      }
    }
    forall k | 0 <= k < |s| ensures x[k] != NUL {
      assert x[k] == s[k];
    }
    NextNulAt(x, 0, |s|);
    assert x[..|s|] == s;
    assert x[|s| + 1..] == tail;
  }

  /** Reading NUL-terminated strings back from their encoding. */
  lemma {:induction false} StringsOfTerminate(ss: seq<Str>, rest: seq<Byte>)
    requires NoNul(ss) && Readable(rest)
    ensures Readable(Terminate(ss) + rest)
    ensures StringsOf(Terminate(ss) + rest) == ss + StringsOf(rest)
    decreases |ss|
  {
    if |ss| > 0 {
      var tail := Terminate(ss[1..]) + rest;
      StringsOfTerminate(ss[1..], rest);
      assert Terminate(ss) + rest == ss[0] + [NUL] + tail;
      StringsOfCons(ss[0], tail);
      Assoc([ss[0]], ss[1..], StringsOf(rest));
      assert ss == [ss[0]] + ss[1..];
    } else {
      assert Terminate(ss) + rest == rest;
    }
  }

  /** The count and the executable path of an encoded answer read back. */
  lemma EncodedHeader(execPath: Str, padding: nat, args: seq<Str>, env: seq<Str>, tail: nat)
    requires NUL !in execPath && 1 <= |args| <= MAX_NARGS && tail >= 1
    ensures var b := Encode(execPath, padding, args, env, tail);
      WellFormedBuffer(b, |b|) && ReadInt32(b) == |args| &&
      ExecPathEnd(b) == INT_SIZE + |execPath| + 1 &&
      ExecPathEnd(b) + padding <= |b| &&
      (forall k :: ExecPathEnd(b) <= k < ExecPathEnd(b) + padding ==> b[k] == NUL)
  {
    var b := Encode(execPath, padding, args, env, tail);
    var rest := execPath + [NUL] + Zeros(padding) + Terminate(args) + Terminate(env) + Zeros(tail);
    assert b == EncodeInt32(|args|) + rest;
    ReadEncodeInt32(|args|, rest);
    assert b[INT_SIZE..INT_SIZE + |execPath|] == execPath;
    CStringAt(b, INT_SIZE, execPath);
  }

  /** The strings read after a prefix are those its encoding holds. */
  lemma StringsAfter(b: seq<Byte>, pre: seq<Byte>, ss: seq<Str>)
    requires b == pre + Terminate(ss) && Terminated(b) && NoNul(ss)
    ensures Strings(b, |pre|) == ss
  {
    assert b[|pre|..] == Terminate(ss) + [];
    StringsOfTerminate(ss, []);
  }

  /** The strings after the path of an encoded answer: an empty one per padding NUL, then the rest. */
  lemma EncodedStrings(execPath: Str, padding: nat, args: seq<Str>, env: seq<Str>, tail: nat)
    requires NUL !in execPath && NoNul(args) && NoNul(env)
    requires 1 <= |args| <= MAX_NARGS && tail >= 1
    ensures var b := Encode(execPath, padding, args, env, tail);
      WellFormedBuffer(b, |b|) &&
      Strings(b, INT_SIZE + |execPath| + 1) == Empties(padding) + (args + env + Empties(tail)) &&
      Strings(b, INT_SIZE + |execPath| + 1 + padding) == args + env + Empties(tail)
  {
    var b := Encode(execPath, padding, args, env, tail);
    EncodedHeader(execPath, padding, args, env, tail);
    EncodeAsStrings(execPath, padding, args, env, tail);
    var pre := EncodeInt32(|args|) + execPath + [NUL];
    var later := args + env + Empties(tail);
    NoNulAppend(args, env);
    NoNulAppend(args + env, Empties(tail));
    NoNulAppend(Empties(padding), later);
    StringsAfter(b, pre, Empties(padding) + later);
    Assoc(pre, Zeros(padding), Terminate(later));
    StringsAfter(b, pre + Zeros(padding), later);
  }

  lemma SkipNulsAt(b: seq<Byte>, off: nat, r: nat)
    requires off <= r < |b| && b[r] != NUL
    requires forall k :: off <= k < r ==> b[k] == NUL
    ensures SkipNuls(b, off) == r
  {
  }

  /** The arguments come first; the rest, up to trailing empty strings, is the environment. */
  lemma ArgsAndEnvOfLayout(args: seq<Str>, env: seq<Str>, empties: nat)
    ensures ArgsAndEnv(args + env + Empties(empties), |args|) == (args, EnvOf(env))
  {
    var all := args + env + Empties(empties);
    assert all[..|args|] == args;
    assert all[|args|..] == env + Empties(empties);
    var junk := Empties(empties);
    forall k | 0 <= k < |junk| ensures EnvEntry(junk[k]).None? {
      assert EQUALS !in junk[k];
    }
    EnvOfIgnoresNonEntries(env, junk);
  }

  /**
   * The decoding that skips the path's padding gives back exactly the
   * arguments and the environment of every well-formed answer, whatever the
   * padding, provided the first argument is not empty.
   */
  lemma SkippingPaddingRoundTrip(execPath: Str, padding: nat, args: seq<Str>, env: seq<Str>, tail: nat)
    requires NUL !in execPath && NoNul(args) && NoNul(env)
    requires 1 <= |args| <= MAX_NARGS && args[0] != [] && tail >= 1
    ensures var b := Encode(execPath, padding, args, env, tail);
      WellFormedBuffer(b, |b|) && ArgsAndEnvSkippingPadding(Some(b)) == (args, EnvOf(env))
  {
    var b := Encode(execPath, padding, args, env, tail);
    PaddedLayout(execPath, padding, args, env, tail);
    assert ArgsAndEnvSkippingPadding(Some(b)) == ArgsAndEnv(args + env + Empties(tail), |args|);
    ArgsAndEnvOfLayout(args, env, tail);
  }

  /**
   * Why the round trip above needs a non-empty first argument: an empty
   * first argument encodes to the same bytes as one more padding NUL in
   * front of a different argument list of the same count, so no decoder can
   * tell the two answers apart.
   */
  lemma EmptyFirstArgumentIsPadding(execPath: Str, padding: nat, rest: seq<Str>, e: Str, envRest: seq<Str>, tail: nat)
    requires |rest| + 1 <= MAX_NARGS
    ensures e != [] ==> [[]] + rest != rest + [e]
    ensures Encode(execPath, padding, [[]] + rest, [e] + envRest, tail) ==
            Encode(execPath, padding + 1, rest + [e], envRest, tail)
  {
    if [[]] + rest == rest + [e] {
      SameElementsAdded(rest, e);
    }
    var args, env := [[]] + rest, [e] + envRest;
    var args', env' := rest + [e], envRest;
    EncodeAsStrings(execPath, padding, args, env, tail);
    EncodeAsStrings(execPath, padding + 1, args', env', tail);
    assert Empties(padding) + (args + env + Empties(tail)) == Empties(padding + 1) + (args' + env' + Empties(tail));
  }

  /** Adding `[]` or adding `e` to the same list gives the same list only when `e` is `[]`. */
  lemma SameElementsAdded(rest: seq<Str>, e: Str)
    requires [[]] + rest == rest + [e]
    ensures e == []
  {
    var empty: Str := [];
    assert multiset([empty] + rest)[e] == multiset([empty])[e] + multiset(rest)[e];
    assert multiset(rest + [e])[e] == multiset(rest)[e] + 1;
  }


  /** After skipping the padding, the strings read are the arguments, the environment and the tail. */
  lemma PaddedLayout(execPath: Str, padding: nat, args: seq<Str>, env: seq<Str>, tail: nat)
    requires NUL !in execPath && NoNul(args) && NoNul(env)
    requires 1 <= |args| <= MAX_NARGS && args[0] != [] && tail >= 1
    ensures var b := Encode(execPath, padding, args, env, tail);
      WellFormedBuffer(b, |b|) && ReadInt32(b) == |args| &&
      Strings(b, SkipNuls(b, ExecPathEnd(b))) == args + env + Empties(tail)
  {
    var b := Encode(execPath, padding, args, env, tail);
    EncodedHeader(execPath, padding, args, env, tail);
    EncodedStrings(execPath, padding, args, env, tail);
    PaddingEndsAtFirstArgument(execPath, padding, args, env, tail);
  }

  /** Skipping the padding NULs lands on the first byte of the (non-empty) first argument. */
  lemma PaddingEndsAtFirstArgument(execPath: Str, padding: nat, args: seq<Str>, env: seq<Str>, tail: nat)
    requires NUL !in execPath && NoNul(args) && NoNul(env)
    requires 1 <= |args| <= MAX_NARGS && args[0] != [] && tail >= 1
    ensures var b := Encode(execPath, padding, args, env, tail);
      WellFormedBuffer(b, |b|) && SkipNuls(b, ExecPathEnd(b)) == ExecPathEnd(b) + padding
  {
    var b := Encode(execPath, padding, args, env, tail);
    EncodedHeader(execPath, padding, args, env, tail);
    var p1 := ExecPathEnd(b) + padding;
    assert b[p1] != NUL by {
      var pre := EncodeInt32(|args|) + execPath + [NUL] + Zeros(padding);
      assert b == pre + (args[0] + [NUL] + Terminate(args[1..])) + Terminate(env) + Zeros(tail);
      assert b[p1] == args[0][0];
      assert args[0][0] in args[0];
    }
    SkipNulsAt(b, ExecPathEnd(b), p1);
  }

  /** Without padding, the decoding as written also gives back the arguments and the environment. */
  lemma AsWrittenRoundTripWithoutPadding(execPath: Str, args: seq<Str>, env: seq<Str>, tail: nat)
    requires NUL !in execPath && NoNul(args) && NoNul(env)
    requires 1 <= |args| <= MAX_NARGS && tail >= 1
    ensures var b := Encode(execPath, 0, args, env, tail);
      WellFormedBuffer(b, |b|) && ArgsAndEnvAsWritten(Some(b)) == (args, EnvOf(env))
  {
    var b := Encode(execPath, 0, args, env, tail);
    var later := args + env + Empties(tail);
    EncodedHeader(execPath, 0, args, env, tail);
    EncodedStrings(execPath, 0, args, env, tail);
    assert Strings(b, ExecPathEnd(b)) == later;
    assert ArgsAndEnvAsWritten(Some(b)) == ArgsAndEnv(later, |args|);
    ArgsAndEnvOfLayout(args, env, tail);
  }

  /**
   * With padding after the executable path, the decoding as written reads
   * each padding NUL as an empty argument: the arguments it returns are the
   * padding's empty strings followed by the real ones, cut to the count.
   */
  lemma PaddingBecomesEmptyArguments(execPath: Str, padding: nat, args: seq<Str>, env: seq<Str>, tail: nat)
    requires NUL !in execPath && NoNul(args) && NoNul(env)
    requires 1 <= |args| <= MAX_NARGS && tail >= 1
    ensures var b := Encode(execPath, padding, args, env, tail);
      WellFormedBuffer(b, |b|) &&
      ArgsAndEnvAsWritten(Some(b)).0 == (Empties(padding) + (args + env + Empties(tail)))[..|args|]
  {
    EncodedHeader(execPath, padding, args, env, tail);
    EncodedStrings(execPath, padding, args, env, tail);
  }

  /** So with any padding and a non-empty first argument, the first argument returned is wrong. */
  lemma PaddingLosesFirstArgument(execPath: Str, padding: nat, args: seq<Str>, env: seq<Str>, tail: nat)
    requires NUL !in execPath && NoNul(args) && NoNul(env)
    requires 1 <= |args| <= MAX_NARGS && args[0] != [] && tail >= 1 && padding >= 1
    ensures var b := Encode(execPath, padding, args, env, tail);
      WellFormedBuffer(b, |b|) && |ArgsAndEnvAsWritten(Some(b)).0| == |args| &&
      ArgsAndEnvAsWritten(Some(b)).0[0] == [] && ArgsAndEnvAsWritten(Some(b)).0 != args
  {
    PaddingBecomesEmptyArguments(execPath, padding, args, env, tail);
  }
}
