/**
  The client (Project1/client.cpp): command-line parsing, the conversion of
  the timeout into a socket deadline, and one probing flow (`pingServer`).
  Threads, sockets, clocks and printing are outside the model: a flow is
  driven by a trace of the results its socket calls returned.
*/
module Client {
  import opened Wrappers
  import opened Utils
  import opened Sockets

  // ---------------------------------------------------------------------
  // Command line: parseCommandLineArgs
  // ---------------------------------------------------------------------

  /** What a successful parse hands to `ping`: repeat count, timeout in milliseconds, targets. */
  datatype Config = Config(number: int, timeout: int, servers: seq<Addr>)

  /** `number = 0`, `timeout = 1000` and an emptied target list, set before the scan starts. */
  const Defaults: Config := Config(0, 1000, [])

  predicate IsFlag(arg: string) {
    arg == "-n" || arg == "-t"
  }

  /** `std::string::find` for a single character. */
  function Find(s: string, c: char): (r: Option<nat>)
    ensures r.None? <==> c !in s
    ensures r.Some? ==> r.value < |s| && s[r.value] == c && c !in s[..r.value]
  {
    if s == [] then None
    else if s[0] == c then Some(0)
    else
      assert s == [s[0]] + s[1..];
      match Find(s[1..], c)
      case None => None
      case Some(k) =>
        assert s[..k + 1] == [s[0]] + s[1..][..k];
        Some(k + 1)
  }

  /** `k` is the position of the first ':' in `arg`. */
  predicate FirstColon(arg: string, k: int) {
    0 <= k < |arg| && arg[k] == ':' && ':' !in arg[..k]
  }

  lemma FirstColonUnique(arg: string, j: int, k: int)
    requires FirstColon(arg, j) && FirstColon(arg, k)
    ensures j == k
  {
  }

  /**
    A `host:port` argument: split at the first ':', resolve the part before
    it with `resolve` (standing for `gethostbyname`), and validate the part
    after it with `string2ushort`.
  */
  function ParseTarget(arg: string, resolve: string -> Option<IPv4>): (r: Option<Addr>)
    ensures ':' !in arg ==> r.None?
  {
    match Find(arg, ':')
    case None => None
    case Some(sep) =>
      match resolve(arg[..sep])
      case None => None
      case Some(ip) =>
        match String2UShort(arg[sep + 1..])
        case None => None
        case Some(port) => Some(Addr(ip, port))
  }

  /**
    With `k` the first ':' of `arg`, the target is accepted exactly when the
    host before `k` resolves and the port after it passes `string2ushort`,
    and it is then that address and port.
  */
  lemma ParseTargetSplit(arg: string, k: int, resolve: string -> Option<IPv4>)
    requires FirstColon(arg, k)
    ensures ParseTarget(arg, resolve).Some? <==> resolve(arg[..k]).Some? && String2UShort(arg[k + 1..]).Some?
    ensures ParseTarget(arg, resolve).Some?
            ==> ParseTarget(arg, resolve).value == Addr(resolve(arg[..k]).value, String2UShort(arg[k + 1..]).value)
  {
    assert ':' in arg by { assert arg[k] == ':'; }
    FirstColonUnique(arg, k, Find(arg, ':').value);
  }

  /** The argument after index `i`, if there is one. */
  function NextArg(argv: seq<string>, i: nat): (r: Option<string>)
    ensures r.Some? <==> i + 1 < |argv|
    ensures r.Some? ==> r.value == argv[i + 1]
  {
    if i + 1 < |argv| then Some(argv[i + 1]) else None
  }

  /**
    One turn of the scan loop on the argument `arg`, with `next` the
    argument after it: how many arguments it consumes and the configuration
    it leaves, or `None` where the source returns `false`. A flag consumes
    its value and changes only its own field; a target is appended.
  */
  function ArgStep(arg: string, next: Option<string>, cfg: Config, resolve: string -> Option<IPv4>): (r: Option<(nat, Config)>)
    ensures IsFlag(arg) && (next.None? || String2Int(next.value).None?) ==> r.None?
    ensures IsFlag(arg) && next.Some? && String2Int(next.value).Some? ==>
              r == Some((2, if arg == "-n" then cfg.(number := String2Int(next.value).value)
                            else cfg.(timeout := String2Int(next.value).value)))
    ensures r.Some? ==> r.value.0 == if IsFlag(arg) then 2 else 1
    ensures r.Some? && arg != "-n" ==> r.value.1.number == cfg.number
    ensures r.Some? && arg != "-t" ==> r.value.1.timeout == cfg.timeout
    ensures r.Some? && IsFlag(arg) ==> r.value.1.servers == cfg.servers
    ensures !IsFlag(arg) ==> r == match ParseTarget(arg, resolve)
                                 case None => None
                                 case Some(x) => Some((1, cfg.(servers := cfg.servers + [x])))
  {
    if arg == "-n" || arg == "-t" then
      match next
      case None => None
      case Some(v) =>
        match String2Int(v)
        case None => None
        case Some(n) => Some((2, if arg == "-n" then cfg.(number := n) else cfg.(timeout := n)))
    else
      match ParseTarget(arg, resolve)
      case None => None
      case Some(x) => Some((1, cfg.(servers := cfg.servers + [x])))
  }

  /**
    The scan of `parseCommandLineArgs` from index `i` of `argv`, with the
    configuration built so far; `None` is its `return false`.
  */
  function Scan(argv: seq<string>, i: nat, cfg: Config, resolve: string -> Option<IPv4>): Option<Config>
    decreases |argv| - i
  {
    if i >= |argv| then Some(cfg)
    else
      var step := ArgStep(argv[i], NextArg(argv, i), cfg, resolve);
      if step.None? then None else Scan(argv, i + step.value.0, step.value.1, resolve)
  }

  /** `parseCommandLineArgs` on the whole `argv`; index 0 is the program name. */
  function ParseArgs(argv: seq<string>, resolve: string -> Option<IPv4>): Option<Config> {
    Scan(argv, 1, Defaults, resolve)
  }

  /** The scanner as written: an index loop that skips over the value of a flag. */
  method ParseCommandLineArgs(argv: seq<string>, resolve: string -> Option<IPv4>) returns (r: Option<Config>)
    ensures r == ParseArgs(argv, resolve)
  {
    var number, timeout := 0, 1000;
    var serverList: seq<Addr> := [];
    var i := 1;
    while i < |argv|
      invariant 1 <= i
      invariant ParseArgs(argv, resolve) == Scan(argv, i, Config(number, timeout, serverList), resolve)
      decreases |argv| - i
    {
      var arg := argv[i];
      if arg == "-n" {
        i := i + 1;
        if !(i < |argv|) {
          return None;
        }
        var value := String2Int(argv[i]);
        if value.None? {
          return None;
        }
        number := value.value;
      } else if arg == "-t" {
        i := i + 1;
        if !(i < |argv|) {
          return None;
        }
        var value := String2Int(argv[i]);
        if value.None? {
          return None;
        }
        timeout := value.value;
      } else {
        var sepPos := Find(arg, ':');
        if sepPos.None? {
          return None;
        }
        var host := resolve(arg[..sepPos.value]);
        if host.None? {
          return None;
        }
        var port := String2UShort(arg[sepPos.value + 1..]);
        if port.None? {
          return None;
        }
        serverList := serverList + [Addr(host.value, port.value)];
      }
      i := i + 1;
    }
    return Some(Config(number, timeout, serverList));
  }

  /** A target's step does not look at the argument after it. */
  lemma TargetStepIgnoresNext(arg: string, x: Option<string>, y: Option<string>, cfg: Config, resolve: string -> Option<IPv4>)
    requires !IsFlag(arg)
    ensures ArgStep(arg, x, cfg, resolve) == ArgStep(arg, y, cfg, resolve)
  {
  }

  /** Once the scan of `a` from `i` succeeds, scanning `a + b` goes on from the end of `a`. */
  lemma {:induction false} ScanConcat(a: seq<string>, b: seq<string>, i: nat, cfg: Config, resolve: string -> Option<IPv4>)
    requires i <= |a| && Scan(a, i, cfg, resolve).Some?
    ensures Scan(a + b, i, cfg, resolve) == Scan(a + b, |a|, Scan(a, i, cfg, resolve).value, resolve)
    decreases |a| - i
  {
    if i < |a| {
      var ab := a + b;
      assert ab[i] == a[i];
      if IsFlag(a[i]) {
        assert ab[i + 1] == a[i + 1];
      } else {
        TargetStepIgnoresNext(a[i], NextArg(a, i), NextArg(ab, i), cfg, resolve);
      }
      var step := ArgStep(a[i], NextArg(a, i), cfg, resolve).value;
      ScanConcat(a, b, i + step.0, step.1, resolve);
    }
  }

  /** Scanning `p + q` past `p` is scanning `q`. */
  lemma {:induction false} ScanShift(p: seq<string>, q: seq<string>, j: nat, cfg: Config, resolve: string -> Option<IPv4>)
    ensures Scan(p + q, |p| + j, cfg, resolve) == Scan(q, j, cfg, resolve)
    decreases |q| - j
  {
    if j < |q| {
      ShiftedArgs(p, q, j);
      var step := ArgStep(q[j], NextArg(q, j), cfg, resolve);
      if step.Some? {
        ScanShift(p, q, j + step.value.0, step.value.1, resolve);
      }
    }
  }

  /** Past `p`, the argument of `p + q` and the one after it are those of `q`. */
  lemma ShiftedArgs(p: seq<string>, q: seq<string>, j: nat)
    requires j < |q|
    ensures (p + q)[|p| + j] == q[j] && NextArg(p + q, |p| + j) == NextArg(q, j)
  {
    if j + 1 < |q| {
      assert (p + q)[|p| + j + 1] == q[j + 1];
    }
  }

  /** After a parsing prefix `a`, the arguments `rest` are scanned on their own from what `a` built. */
  lemma ParseAfterPrefix(a: seq<string>, rest: seq<string>, resolve: string -> Option<IPv4>)
    requires |a| >= 1 && ParseArgs(a, resolve).Some?
    ensures ParseArgs(a + rest, resolve) == Scan(rest, 0, ParseArgs(a, resolve).value, resolve)
  {
    ScanConcat(a, rest, 1, Defaults, resolve);
    ScanShift(a, rest, 0, ParseArgs(a, resolve).value, resolve);
  }

  lemma {:induction false} ScanTrailingFlag(argv: seq<string>, i: nat, cfg: Config, resolve: string -> Option<IPv4>)
    requires i < |argv| && IsFlag(argv[|argv| - 1])
    ensures Scan(argv, i, cfg, resolve) == None
    decreases |argv| - i
  {
    if i + 2 == |argv| && IsFlag(argv[i]) {
      assert !IsDigit(argv[i + 1][0]);
    } else if i + 1 < |argv| {
      var step := ArgStep(argv[i], NextArg(argv, i), cfg, resolve);
      if step.Some? {
        ScanTrailingFlag(argv, i + step.value.0, step.value.1, resolve);
      }
    }
  }

  /**
    A `-n` or `-t` in last position has no value to read and the parse
    fails; if the argument before it was itself a flag, the flag word is
    read as that flag's value and rejected by `string2int`.
  */
  lemma TrailingFlagFails(argv: seq<string>, resolve: string -> Option<IPv4>)
    requires |argv| >= 2 && IsFlag(argv[|argv| - 1])
    ensures ParseArgs(argv, resolve) == None
  {
    ScanTrailingFlag(argv, 1, Defaults, resolve);
  }

  /** A scan keeps the count where no `-n` is left to read, and the timeout where no `-t` is. */
  lemma {:induction false} ScanKeeps(argv: seq<string>, i: nat, cfg: Config, resolve: string -> Option<IPv4>)
    ensures (forall k :: i <= k < |argv| ==> argv[k] != "-n") && Scan(argv, i, cfg, resolve).Some?
            ==> Scan(argv, i, cfg, resolve).value.number == cfg.number
    ensures (forall k :: i <= k < |argv| ==> argv[k] != "-t") && Scan(argv, i, cfg, resolve).Some?
            ==> Scan(argv, i, cfg, resolve).value.timeout == cfg.timeout
    decreases |argv| - i
  {
    if i < |argv| {
      var step := ArgStep(argv[i], NextArg(argv, i), cfg, resolve);
      if step.Some? {
        ScanKeeps(argv, i + step.value.0, step.value.1, resolve);
      }
    }
  }

  /**
    A repeated flag overwrites: after `-n v` (resp. `-t v`), the value of
    `v` is the one the parse returns unless a later `-n` (resp. `-t`) follows.
  */
  lemma LastFlagWins(a: seq<string>, v: string, b: seq<string>, resolve: string -> Option<IPv4>)
    requires |a| >= 1 && ParseArgs(a, resolve).Some? && String2Int(v).Some?
    ensures "-n" !in b && ParseArgs(a + ["-n", v] + b, resolve).Some?
            ==> ParseArgs(a + ["-n", v] + b, resolve).value.number == String2Int(v).value
    ensures "-t" !in b && ParseArgs(a + ["-t", v] + b, resolve).Some?
            ==> ParseArgs(a + ["-t", v] + b, resolve).value.timeout == String2Int(v).value
    ensures ParseArgs(a + ["-n", v], resolve) == Some(ParseArgs(a, resolve).value.(number := String2Int(v).value))
    ensures ParseArgs(a + ["-t", v], resolve) == Some(ParseArgs(a, resolve).value.(timeout := String2Int(v).value))
  {
    var c := ParseArgs(a, resolve).value;
    var n := String2Int(v).value;
    FlagAppended(a, "-n", v, resolve);
    FlagAppended(a, "-t", v, resolve);
    forall flag | flag == "-n" || flag == "-t"
      ensures ParseArgs(a + [flag, v] + b, resolve) == Scan([flag, v] + b, 0, c, resolve)
    {
      assert a + [flag, v] + b == a + ([flag, v] + b);
      ParseAfterPrefix(a, [flag, v] + b, resolve);
    }
    var nb, tb := ["-n", v] + b, ["-t", v] + b;
    assert nb[0] == "-n" && nb[1] == v && tb[0] == "-t" && tb[1] == v;
    assert nb == ["-n", v] + b && tb == ["-t", v] + b;
    ScanShift(["-n", v], b, 0, c.(number := n), resolve);
    ScanShift(["-t", v], b, 0, c.(timeout := n), resolve);
    ScanKeeps(b, 0, c.(number := n), resolve);
    ScanKeeps(b, 0, c.(timeout := n), resolve);
  }

  /** A flag with a valid value, appended to an accepted command line, sets its own field. */
  lemma FlagAppended(a: seq<string>, flag: string, v: string, resolve: string -> Option<IPv4>)
    requires |a| >= 1 && ParseArgs(a, resolve).Some? && String2Int(v).Some? && IsFlag(flag)
    ensures ParseArgs(a + [flag, v], resolve)
            == Some(if flag == "-n" then ParseArgs(a, resolve).value.(number := String2Int(v).value)
                    else ParseArgs(a, resolve).value.(timeout := String2Int(v).value))
  {
    ParseAfterPrefix(a, [flag, v], resolve);
    assert NextArg([flag, v], 0) == Some(v);
  }

  /**
    A further non-flag argument is parsed as a target and appended after
    the targets already accepted; without a ':' the parse fails.
  */
  lemma TargetAppended(a: seq<string>, t: string, b: seq<string>, resolve: string -> Option<IPv4>)
    requires |a| >= 1 && ParseArgs(a, resolve).Some? && !IsFlag(t)
    ensures ParseArgs(a + [t], resolve)
            == match ParseTarget(t, resolve)
               case None => None
               case Some(x) => Some(ParseArgs(a, resolve).value.(servers := ParseArgs(a, resolve).value.servers + [x]))
    ensures ':' !in t ==> ParseArgs(a + [t] + b, resolve) == None
  {
    ParseAfterPrefix(a, [t], resolve);
    assert a + [t] + b == a + ([t] + b);
    ParseAfterPrefix(a, [t] + b, resolve);
    assert ([t] + b)[0] == t;
  }

  /** Every argument from index `i` on read as a target, independently of the scan. */
  function Targets(argv: seq<string>, i: nat, resolve: string -> Option<IPv4>): Option<seq<Addr>>
    decreases |argv| - i
  {
    if i >= |argv| then Some([])
    else match ParseTarget(argv[i], resolve)
      case None => None
      case Some(t) =>
        match Targets(argv, i + 1, resolve)
        case None => None
        case Some(ts) => Some([t] + ts)
  }

  /** `Targets` succeeds exactly when every argument is a valid target, and lists them in order. */
  lemma {:induction false} TargetsElements(argv: seq<string>, i: nat, resolve: string -> Option<IPv4>)
    requires i <= |argv|
    ensures Targets(argv, i, resolve).Some? <==> forall k :: i <= k < |argv| ==> ParseTarget(argv[k], resolve).Some?
    ensures Targets(argv, i, resolve).Some? ==>
              |Targets(argv, i, resolve).value| == |argv| - i
              && forall k :: i <= k < |argv| ==> Targets(argv, i, resolve).value[k - i] == ParseTarget(argv[k], resolve).value
    decreases |argv| - i
  {
    if i < |argv| {
      TargetsElements(argv, i + 1, resolve);
      if Targets(argv, i, resolve).Some? {
        var ts := Targets(argv, i + 1, resolve).value;
        forall k | i < k < |argv|
          ensures ([ParseTarget(argv[i], resolve).value] + ts)[k - i] == ParseTarget(argv[k], resolve).value
        {
          assert ts[k - (i + 1)] == ParseTarget(argv[k], resolve).value;
        }
      }
    }
  }

  /** Without flags the scan appends the targets to those already collected, or fails as `Targets` does. */
  lemma {:induction false} ScanTargets(argv: seq<string>, i: nat, cfg: Config, resolve: string -> Option<IPv4>)
    requires i <= |argv|
    requires forall k :: i <= k < |argv| ==> !IsFlag(argv[k])
    ensures Scan(argv, i, cfg, resolve)
            == match Targets(argv, i, resolve)
               case None => None
               case Some(ts) => Some(cfg.(servers := cfg.servers + ts))
    decreases |argv| - i
  {
    if i >= |argv| {
      assert cfg.servers + [] == cfg.servers;
    } else {
      var t := ParseTarget(argv[i], resolve);
      if t.None? {
        assert Scan(argv, i, cfg, resolve) == None;
      } else {
        var cfg' := cfg.(servers := cfg.servers + [t.value]);
        ScanTargets(argv, i + 1, cfg', resolve);
        assert Scan(argv, i, cfg, resolve) == Scan(argv, i + 1, cfg', resolve);
        if Targets(argv, i + 1, resolve).Some? {
          var ts := Targets(argv, i + 1, resolve).value;
          assert cfg'.servers + ts == cfg.servers + ([t.value] + ts);
        }
      }
    }
  }

  /**
    Without flags the count and timeout keep their defaults (0 and 1000),
    the target list starts empty, and the parse succeeds exactly when every
    argument is a valid target, giving them in argument order.
  */
  lemma NoFlagsGivesTargets(argv: seq<string>, resolve: string -> Option<IPv4>)
    requires forall i :: 1 <= i < |argv| ==> !IsFlag(argv[i])
    ensures ParseArgs(argv, resolve).Some? <==> forall i :: 1 <= i < |argv| ==> ParseTarget(argv[i], resolve).Some?
    ensures ParseArgs(argv, resolve).Some? ==>
              var c := ParseArgs(argv, resolve).value;
              && c.number == 0 && c.timeout == 1000
              && |c.servers| == (if argv == [] then 0 else |argv| - 1)
              && forall i :: 1 <= i < |argv| ==> c.servers[i - 1] == ParseTarget(argv[i], resolve).value
  {
    if argv != [] {
      ScanTargets(argv, 1, Defaults, resolve);
      TargetsElements(argv, 1, resolve);
    }
  }

  // ---------------------------------------------------------------------
  // Socket deadline: the timeval built from the timeout (client.cpp:92-93)
  // ---------------------------------------------------------------------

  /** C's `/` on `int`: the quotient is truncated toward zero (see `DivRemTruncated`). */
  function CDiv(a: int, b: int): (q: int)
    requires b > 0
    ensures 0 <= a ==> 0 <= q
    ensures a < 0 ==> q <= 0
  {
    if a >= 0 then a / b else -((-a) / b)
  }

  /** C's `%` on `int`: the remainder takes the sign of the dividend. */
  function CRem(a: int, b: int): (r: int)
    requires b > 0
    ensures -b < r < b
    ensures a >= 0 ==> r == a % b
    ensures a < 0 ==> r <= 0
  {
    a - CDiv(a, b) * b
  }

  /**
    C's division identity: `a == (a / b) * b + a % b`, where the quotient is
    the multiple of `b` nearest to `a` on the side of zero, so the remainder
    differs from `a` by a multiple of `b` and has the sign of `a`.
  */
  lemma DivRemTruncated(a: int, b: int)
    requires b > 0
    ensures a == CDiv(a, b) * b + CRem(a, b)
    ensures (a - CRem(a, b)) % b == 0
    ensures a >= 0 ==> CDiv(a, b) * b <= a < CDiv(a, b) * b + b
    ensures a < 0 ==> CDiv(a, b) * b - b < a <= CDiv(a, b) * b
  {
    MultipleMod(CDiv(a, b), b);
  }

  /** A multiple of `b` leaves no remainder. */
  lemma MultipleMod(q: int, b: int)
    requires b > 0
    ensures (q * b) % b == 0
  {
    var d, m := (q * b) / b, (q * b) % b;
    assert m == (q - d) * b;
    // 0 <= (q - d) * b < b leaves only d == q
    assert !(q - d >= 1) && !(q - d <= -1);
  }

  /** Two's-complement wrap-around of an `int` result, as the hardware computes it. */
  function Wrap32(x: int): (r: int)
    ensures INT_MIN <= r <= INT_MAX
    ensures (x - r) % 0x1_0000_0000 == 0
    ensures INT_MIN <= x <= INT_MAX ==> r == x
  {
    (x - INT_MIN) % 0x1_0000_0000 + INT_MIN
  }

  datatype TimeVal = TimeVal(sec: int, usec: int)

  /**
    The conversion as written: `tv_sec = timeout / 1000` and
    `tv_usec = timeout * 1000 % 1000000`, where the product is an `int`.
  */
  function TimevalAsWritten(timeout: int): TimeVal
    requires INT_MIN <= timeout <= INT_MAX
  {
    TimeVal(CDiv(timeout, 1000), CRem(Wrap32(timeout * 1000), 1_000_000))
  }

  /**
    What the conversion as written still guarantees: `tv_usec` is below one
    second in magnitude, and `tv_sec` is the whole seconds of a non-negative
    timeout.
  */
  lemma TimevalAsWrittenRange(timeout: int)
    requires INT_MIN <= timeout <= INT_MAX
    ensures -1_000_000 < TimevalAsWritten(timeout).usec < 1_000_000
    ensures 0 <= timeout ==> TimevalAsWritten(timeout).sec == timeout / 1000
  {
  }

  /**
    The conversion evidently intended: whole seconds, then the remaining
    milliseconds in microseconds, with no product that can overflow.
  */
  function IntendedTimeval(timeout: int): (tv: TimeVal)
    ensures -1_000_000 < tv.usec < 1_000_000 && tv.usec % 1000 == 0
    ensures 0 <= timeout ==> 0 <= tv.usec
    ensures tv.sec * 1000 + tv.usec / 1000 == timeout
  {
    TimeVal(CDiv(timeout, 1000), CRem(timeout, 1000) * 1000)
  }

  /** While `timeout * 1000` fits in an `int` the code computes the intended deadline. */
  lemma TimevalAsWrittenBelowOverflow(timeout: int)
    requires 0 <= timeout <= INT_MAX / 1000
    ensures TimevalAsWritten(timeout) == IntendedTimeval(timeout)
  {
    var q, r := timeout / 1000, timeout % 1000;
    assert timeout * 1000 == 1_000_000 * q + 1000 * r;
    assert 0 <= 1000 * r < 1_000_000;
    assert (timeout * 1000) % 1_000_000 == 1000 * r;
  }

  /** One millisecond further the product wraps and `tv_usec` comes out negative. */
  lemma TimevalAsWrittenOverflows()
    ensures INT_MAX / 1000 + 1 == 2147484
    ensures TimevalAsWritten(2147484).usec == -483296
    ensures IntendedTimeval(2147484) == TimeVal(2147, 484000)
  {
    assert Wrap32(2147484 * 1000) == -2147483296;
  }

  /** Below the overflow the deadline handed to `setsockopt` is the intended one. */
  lemma ConfiguredAsIntended(timeout: Int32, trace: Trace)
    requires 0 <= timeout <= INT_MAX / 1000
    ensures Configured(timeout, trace) <==> trace.sockopt(IntendedTimeval(timeout))
  {
    TimevalAsWrittenBelowOverflow(timeout);
  }

  /**
    With `-t 2147484` a `setsockopt` that accepts only `0 <= tv_usec < 1000000`
    (as Linux does) refuses the deadline, and the flow ends before `connect`.
  */
  lemma OverflowEndsFlow(number: int, trace: Trace)
    requires forall tv :: trace.sockopt(tv) ==> 0 <= tv.usec < 1_000_000
    ensures Flow(number, 2147484, trace) == Run([], 0, Ended)
  {
    TimevalAsWrittenOverflows();
  }

  /** The command line `-t 2147484` is accepted and hands that timeout to every flow. */
  lemma OverflowingTimeoutParses(resolve: string -> Option<IPv4>)
    ensures ParseArgs(["ping", "-t", "2147484"], resolve) == Some(Config(0, 2147484, []))
  {
    var argv := ["ping", "-t", "2147484"];
    assert String2Int("2147484") == Some(2147484) by {
      var v := "2147484";
      assert DecimalValue(v[..1]) == 2;
      assert DecimalValue(v[..2]) == 21 by { assert v[..2][..1] == v[..1]; }
      assert DecimalValue(v[..3]) == 214 by { assert v[..3][..2] == v[..2]; }
      assert DecimalValue(v[..4]) == 2147 by { assert v[..4][..3] == v[..3]; }
      assert DecimalValue(v[..5]) == 21474 by { assert v[..5][..4] == v[..4]; }
      assert DecimalValue(v[..6]) == 214748 by { assert v[..6][..5] == v[..5]; }
      assert DecimalValue(v) == 2147484 by { assert v[..6] == v[..|v| - 1]; }
    }
    assert NextArg(argv, 1) == Some("2147484");
    assert Scan(argv, 1, Defaults, resolve) == Scan(argv, 3, Config(0, 2147484, []), resolve);
  }

  // ---------------------------------------------------------------------
  // One probing flow: pingServer
  // ---------------------------------------------------------------------

  datatype ConnectResult = Connected | ConnectFailed(err: Errno)

  /** The results seen by one attempt: its `send`, its `recv` calls in order, and the milliseconds measured. */
  datatype Attempt = Attempt(send: SendResult, recvs: seq<RecvResult>, elapsed: nat)

  /**
    Everything one flow observes: whether both `setsockopt` calls accept a
    given deadline, what `connect` returned, then one entry per attempt.
  */
  datatype Trace = Trace(sockopt: TimeVal -> bool, connect: ConnectResult, attempts: seq<Attempt>)

  /** Both socket timeouts were set to the deadline the code computes from `timeout`. */
  predicate Configured(timeout: Int32, trace: Trace) {
    trace.sockopt(TimevalAsWritten(timeout))
  }

  /** The two report lines: "timeout when connect to …" and "recv from …, RTT = … msec". */
  datatype Report = TimedOut | Success(rtt: nat)

  /** What a flow visibly does: sleep one second, send a sequence number, print a report. */
  datatype Action = Sleep | Send(data: int) | Print(report: Report)

  /**
    How a flow ends: the loop condition became false (`Completed`), an early
    return (`Ended`), or the trace ran out before the flow did (`Stalled`).
  */
  datatype Ending = Completed | Ended | Stalled

  datatype Run = Run(actions: seq<Action>, attempts: nat, ending: Ending)

  /** `~x` on a two's-complement integer: the initial `recvData`, never equal to `x`. */
  function Complement(x: int): (r: int)
    ensures r != x
  {
    -x - 1
  }

  /** What ends the receive loop of one attempt. */
  datatype RecvEnd = Matched | WouldBlock | Reset | PeerClosed | RecvError | Exhausted

  /** The `do … while(recvData != data)` loop: replies that differ from `data` are read past. */
  function Receive(data: int, recvs: seq<RecvResult>): RecvEnd
    decreases |recvs|
  {
    if recvs == [] then Exhausted
    else match recvs[0]
      case Received(v) => if v == data then Matched else Receive(data, recvs[1..])
      case RecvClosed => PeerClosed
      case RecvFailed(e) =>
        if e == EWOULDBLOCK then WouldBlock
        else if e == ECONNRESET then Reset
        else RecvError
  }

  /** The outcome of one attempt: go on with a report, stop (with or without a report), or out of trace. */
  datatype Step = Continue(report: Report) | Stop(final: Option<Report>) | Stall

  /** One attempt, from its `send` to its report. */
  function AttemptStep(data: int, timeout: int, a: Attempt): Step {
    match a.send
    case SendFailed(e) => Stop(if e == EPIPE then Some(TimedOut) else None)
    case Sent =>
      match Receive(data, a.recvs)
      case Matched => Continue(if a.elapsed > timeout then TimedOut else Success(a.elapsed))
      case WouldBlock => Continue(TimedOut)
      case Reset => Stop(Some(TimedOut))
      case PeerClosed => Stop(Some(TimedOut))
      case RecvError => Stop(None)
      case Exhausted => Stall
  }

  predicate TransientConnectError(e: Errno) {
    e == EWOULDBLOCK || e == ECONNREFUSED || e == EINPROGRESS
  }

  /** The loop condition `packetCnt < number or number == 0`. */
  predicate Running(number: int, i: nat) {
    i < number || number == 0
  }

  function Pace(i: nat): seq<Action> {
    if i == 0 then [] else [Sleep]
  }

  function Printed(r: Option<Report>): seq<Action> {
    if r.Some? then [Print(r.value)] else []
  }

  function Prepend(log: seq<Action>, r: Run): Run {
    r.(actions := log + r.actions)
  }

  /** The attempt loop from attempt `i` on. */
  function Attempts(number: int, timeout: int, A: seq<Attempt>, i: nat): (r: Run)
    requires i <= |A|
    ensures i <= r.attempts <= |A|
    ensures r.ending == Completed ==> !Running(number, r.attempts)
    decreases |A| - i
  {
    if !Running(number, i) then Run([], i, Completed)
    else if i == |A| then Run([], i, Stalled)
    else
      var opening := Pace(i) + [Send(i)];
      match AttemptStep(i, timeout, A[i])
      case Continue(report) => Prepend(opening + [Print(report)], Attempts(number, timeout, A, i + 1))
      case Stop(final) => Run(opening + Printed(final), i + 1, Ended)
      case Stall => Run(opening, i + 1, Stalled)
  }

  /** The whole flow of `pingServer` for one target. */
  function Flow(number: int, timeout: Int32, trace: Trace): Run {
    if !Configured(timeout, trace) then Run([], 0, Ended)
    else match trace.connect
      case ConnectFailed(e) => Run(if TransientConnectError(e) then [Print(TimedOut)] else [], 0, Ended)
      case Connected => Attempts(number, timeout, trace.attempts, 0)
  }

  /** Unfolding `Attempts` at an attempt that goes on, ends the flow, or runs out of trace. */
  lemma AttemptsStep(number: int, timeout: int, A: seq<Attempt>, i: nat, log: seq<Action>)
    requires i < |A| && Running(number, i)
    ensures AttemptStep(i, timeout, A[i]).Continue? ==>
              Prepend(log, Attempts(number, timeout, A, i))
              == Prepend(log + Pace(i) + [Send(i)] + [Print(AttemptStep(i, timeout, A[i]).report)], Attempts(number, timeout, A, i + 1))
    ensures AttemptStep(i, timeout, A[i]).Stop? ==>
              Prepend(log, Attempts(number, timeout, A, i))
              == Run(log + Pace(i) + [Send(i)] + Printed(AttemptStep(i, timeout, A[i]).final), i + 1, Ended)
    ensures AttemptStep(i, timeout, A[i]).Stall? ==>
              Prepend(log, Attempts(number, timeout, A, i)) == Run(log + Pace(i) + [Send(i)], i + 1, Stalled)
  {
    var opening := Pace(i) + [Send(i)];
    match AttemptStep(i, timeout, A[i])
    case Continue(report) =>
      assert log + (opening + [Print(report)] + Attempts(number, timeout, A, i + 1).actions)
             == log + Pace(i) + [Send(i)] + [Print(report)] + Attempts(number, timeout, A, i + 1).actions;
    case Stop(final) =>
      assert log + (opening + Printed(final)) == log + Pace(i) + [Send(i)] + Printed(final);
    case Stall =>
      assert log + opening == log + Pace(i) + [Send(i)];
  }

  /** Unfolding `Receive` at position `j` of the receive results. */
  lemma ReceiveStep(data: int, recvs: seq<RecvResult>, j: nat)
    requires j < |recvs|
    ensures Receive(data, recvs[j..])
            == match recvs[j]
               case Received(v) => if v == data then Matched else Receive(data, recvs[j + 1..])
               case RecvClosed => PeerClosed
               case RecvFailed(e) =>
                 if e == EWOULDBLOCK then WouldBlock else if e == ECONNRESET then Reset else RecvError
  {
    assert recvs[j..][0] == recvs[j] && recvs[j..][1..] == recvs[j + 1..];
  }

  /** `pingServer` as written: the attempt loop with the receive loop nested in it. */
  method PingServer(number: int, timeout: Int32, trace: Trace) returns (run: Run)
    ensures run == Flow(number, timeout, trace)
  {
    var socketTimeout := TimeVal(CDiv(timeout, 1000), CRem(Wrap32(timeout * 1000), 1_000_000));
    if !trace.sockopt(socketTimeout) {
      return Run([], 0, Ended);
    }
    if trace.connect.ConnectFailed? {
      var log := if TransientConnectError(trace.connect.err) then [Print(TimedOut)] else [];
      return Run(log, 0, Ended);
    }
    var A := trace.attempts;
    var log: seq<Action> := [];
    var packetCnt: nat := 0;
    while packetCnt < number || number == 0
      invariant packetCnt <= |A|
      invariant Flow(number, timeout, trace) == Prepend(log, Attempts(number, timeout, A, packetCnt))
      decreases |A| - packetCnt
    {
      if packetCnt == |A| {
        return Run(log, packetCnt, Stalled);
      }
      AttemptsStep(number, timeout, A, packetCnt, log);
      ghost var before := log;
      if packetCnt != 0 {
        log := log + [Sleep];
      }
      var data := packetCnt;
      var attempt := A[packetCnt];
      log := log + [Send(data)];
      assert log == before + Pace(packetCnt) + [Send(packetCnt)];
      if attempt.send.SendFailed? {
        if attempt.send.err == EPIPE {
          log := log + [Print(TimedOut)];
        }
        return Run(log, packetCnt + 1, Ended);
      }
      var recvData := Complement(data);
      var j := 0;
      while true
        invariant 0 <= j <= |attempt.recvs|
        invariant recvData != data
        invariant Receive(data, attempt.recvs) == Receive(data, attempt.recvs[j..])
        decreases |attempt.recvs| - j
      {
        if j == |attempt.recvs| {
          assert attempt.recvs[j..] == [];
          return Run(log, packetCnt + 1, Stalled);
        }
        ReceiveStep(data, attempt.recvs, j);
        match attempt.recvs[j]
        case RecvFailed(e) =>
          if e == EWOULDBLOCK {
            break;
          } else if e == ECONNRESET {
            log := log + [Print(TimedOut)];
            return Run(log, packetCnt + 1, Ended);
          } else {
            return Run(log, packetCnt + 1, Ended);
          }
        case RecvClosed =>
          log := log + [Print(TimedOut)];
          return Run(log, packetCnt + 1, Ended);
        case Received(v) =>
          recvData := v;
          j := j + 1;
          if recvData == data {
            break;
          }
      }
      assert Receive(data, attempt.recvs) == if recvData == data then Matched else WouldBlock;
      if recvData != data {
        log := log + [Print(TimedOut)];
        packetCnt := packetCnt + 1;
        continue;
      }
      if attempt.elapsed > timeout {
        log := log + [Print(TimedOut)];
      } else {
        log := log + [Print(Success(attempt.elapsed))];
      }
      packetCnt := packetCnt + 1;
    }
    return Run(log, packetCnt, Completed);
  }

  // Properties of a flow

  /** The sequence numbers sent, in order. */
  function Sends(acts: seq<Action>): seq<int> {
    if acts == [] then [] else (if acts[0].Send? then [acts[0].data] else []) + Sends(acts[1..])
  }

  /** The report lines printed, in order. */
  function Reports(acts: seq<Action>): seq<Report> {
    if acts == [] then [] else (if acts[0].Print? then [acts[0].report] else []) + Reports(acts[1..])
  }

  lemma {:induction false} SendsReportsConcat(x: seq<Action>, y: seq<Action>)
    ensures Sends(x + y) == Sends(x) + Sends(y)
    ensures Reports(x + y) == Reports(x) + Reports(y)
  {
    if x == [] {
      assert x + y == y;
    } else {
      assert (x + y)[0] == x[0] && (x + y)[1..] == x[1..] + y;
      SendsReportsConcat(x[1..], y);
      var s: seq<int> := if x[0].Send? then [x[0].data] else [];
      var r: seq<Report> := if x[0].Print? then [x[0].report] else [];
      assert s + (Sends(x[1..]) + Sends(y)) == (s + Sends(x[1..])) + Sends(y);
      assert r + (Reports(x[1..]) + Reports(y)) == (r + Reports(x[1..])) + Reports(y);
    }
  }

  /** The numbers `i`, `i + 1`, …, `j - 1`. */
  function Upto(i: int, j: int): (s: seq<int>)
    ensures |s| == if i <= j then j - i else 0
    ensures forall k :: 0 <= k < |s| ==> s[k] == i + k
    decreases j - i
  {
    if j <= i then [] else [i] + Upto(i + 1, j)
  }

  /** The report line an attempt's outcome prints, if any. */
  function Outcome(s: Step): seq<Report> {
    match s
    case Continue(report) => [report]
    case Stop(final) => if final.Some? then [final.value] else []
    case Stall => []
  }

  /** The lines printed by attempts `i` to `j - 1` taken one by one, independently of the loop. */
  function Outcomes(timeout: int, A: seq<Attempt>, i: nat, j: nat): seq<Report>
    requires i <= j <= |A|
    decreases j - i
  {
    if i == j then [] else Outcome(AttemptStep(i, timeout, A[i])) + Outcomes(timeout, A, i + 1, j)
  }

  /** The actions of attempt `i` with outcome `s`: its pause, its send, and its report line if any. */
  function Block(i: nat, s: Step): seq<Action> {
    Pace(i) + [Send(i)] + match s
      case Continue(report) => [Print(report)]
      case Stop(final) => Printed(final)
      case Stall => []
  }

  /** One attempt sends its own number, prints its own outcome, and is paced. */
  lemma BlockFacts(i: nat, s: Step)
    ensures Sends(Block(i, s)) == [i]
    ensures Reports(Block(i, s)) == Outcome(s)
    ensures Paced(Block(i, s))
  {
    var tail := match s
      case Continue(report) => [Print(report)]
      case Stop(final) => Printed(final)
      case Stall => [];
    var head := Pace(i) + [Send(i)];
    assert Sends(head) == [i] && Reports(head) == [] by {
      assert Sends(Pace(i)) == [] && Reports(Pace(i)) == [] by {
        if i != 0 {
          assert Pace(i)[1..] == [];
        }
      }
      assert [Send(i)][1..] == [];
      SendsReportsConcat(Pace(i), [Send(i)]);
      assert [] + [i] == [i];
    }
    assert Sends(tail) == [] && Reports(tail) == Outcome(s) by {
      if tail != [] {
        assert tail[1..] == [];
      }
    }
    assert Block(i, s) == head + tail;
    SendsReportsConcat(head, tail);
    assert [i] + [] == [i];
    assert [] + Outcome(s) == Outcome(s);
    BlockPaced(i, s);
  }

  /** In one attempt's actions, only a sleep precedes the send, and only for attempts after the first. */
  lemma BlockPaced(i: nat, s: Step)
    ensures Paced(Block(i, s))
  {
    var b := Block(i, s);
    var n := |Pace(i)|;
    forall k | 0 <= k < |b|
      ensures (k < n && b[k] == Sleep && i != 0) || (k == n && b[k] == Send(i)) || (n < k && b[k].Print?)
    {
    }
  }

  /** Unfolding the attempt loop at an attempt it makes. */
  lemma AttemptsUnfold(number: int, timeout: int, A: seq<Attempt>, i: nat)
    requires i < |A| && Running(number, i)
    ensures var s := AttemptStep(i, timeout, A[i]);
            var r := Attempts(number, timeout, A, i);
            if s.Continue? then r == Prepend(Block(i, s), Attempts(number, timeout, A, i + 1))
            else r.actions == Block(i, s) && r.attempts == i + 1
  {
  }

  /** The attempt loop sends the sequence numbers `i`, `i + 1`, … in order, one per attempt. */
  lemma {:induction false} AttemptsSends(number: int, timeout: int, A: seq<Attempt>, i: nat)
    requires i <= |A|
    ensures Sends(Attempts(number, timeout, A, i).actions) == Upto(i, Attempts(number, timeout, A, i).attempts)
    decreases |A| - i
  {
    if Running(number, i) && i < |A| {
      var s := AttemptStep(i, timeout, A[i]);
      AttemptsUnfold(number, timeout, A, i);
      BlockFacts(i, s);
      if s.Continue? {
        AttemptsSends(number, timeout, A, i + 1);
        SendsReportsConcat(Block(i, s), Attempts(number, timeout, A, i + 1).actions);
      }
    }
  }

  /** The lines the attempt loop prints are the outcomes of the attempts it made, in order. */
  lemma {:induction false} AttemptsReports(number: int, timeout: int, A: seq<Attempt>, i: nat)
    requires i <= |A|
    ensures Reports(Attempts(number, timeout, A, i).actions) == Outcomes(timeout, A, i, Attempts(number, timeout, A, i).attempts)
    decreases |A| - i
  {
    if Running(number, i) && i < |A| {
      var s := AttemptStep(i, timeout, A[i]);
      AttemptsUnfold(number, timeout, A, i);
      BlockFacts(i, s);
      if s.Continue? {
        AttemptsReports(number, timeout, A, i + 1);
        SendsReportsConcat(Block(i, s), Attempts(number, timeout, A, i + 1).actions);
      }
    }
  }

  /**
    How the attempt loop ends: every attempt it made ran while the loop
    condition held, every attempt but the last went on; it completes when
    the condition fails after attempts that all went on, it ends early at
    an attempt that stopped, and it stalls only at the end of the trace.
  */
  lemma {:induction false} AttemptsEnding(number: int, timeout: int, A: seq<Attempt>, i: nat)
    requires i <= |A|
    ensures var r := Attempts(number, timeout, A, i);
            forall k :: i <= k < r.attempts ==> Running(number, k)
    ensures var r := Attempts(number, timeout, A, i);
            forall k :: i <= k < r.attempts - 1 ==> AttemptStep(k, timeout, A[k]).Continue?
    ensures var r := Attempts(number, timeout, A, i);
            r.ending == Completed ==> forall k :: i <= k < r.attempts ==> AttemptStep(k, timeout, A[k]).Continue?
    ensures var r := Attempts(number, timeout, A, i);
            r.ending == Ended ==> i < r.attempts && AttemptStep(r.attempts - 1, timeout, A[r.attempts - 1]).Stop?
    ensures var r := Attempts(number, timeout, A, i);
            r.ending == Stalled ==>
              || (r.attempts == |A| && Running(number, |A|) && forall k :: i <= k < |A| ==> AttemptStep(k, timeout, A[k]).Continue?)
              || (i < r.attempts && AttemptStep(r.attempts - 1, timeout, A[r.attempts - 1]).Stall?)
    decreases |A| - i
  {
    if Running(number, i) && i < |A| && AttemptStep(i, timeout, A[i]).Continue? {
      AttemptsEnding(number, timeout, A, i + 1);
    }
  }

  /**
    A flow completes only with a positive count, after exactly that many
    attempts; with count 0 it never completes; with a positive count it
    never makes more attempts than the count.
  */
  lemma FlowCount(number: int, timeout: Int32, trace: Trace)
    ensures Flow(number, timeout, trace).ending == Completed ==> number != 0 && Flow(number, timeout, trace).attempts == if number < 0 then 0 else number
    ensures number == 0 ==> Flow(number, timeout, trace).ending != Completed
    ensures 0 < number ==> Flow(number, timeout, trace).attempts <= number
  {
    if Configured(timeout, trace) && trace.connect.Connected? {
      AttemptsEnding(number, timeout, trace.attempts, 0);
      var r := Flow(number, timeout, trace);
      if 0 < r.attempts {
        assert Running(number, r.attempts - 1);
      }
    }
  }

  /** A flow sends 0, 1, 2, … in order, one number per attempt, and nothing before it connects. */
  lemma FlowSends(number: int, timeout: Int32, trace: Trace)
    ensures Sends(Flow(number, timeout, trace).actions) == Upto(0, Flow(number, timeout, trace).attempts)
  {
    if Configured(timeout, trace) {
      if trace.connect.Connected? {
        AttemptsSends(number, timeout, trace.attempts, 0);
      } else {
        assert Sends(Flow(number, timeout, trace).actions) == [];
      }
    }
  }

  /**
    After connecting, each attempt prints its own outcome; a flow that
    completes prints exactly one line per attempt. A failed connect prints
    a timeout line exactly when the error is transient.
  */
  lemma FlowReports(number: int, timeout: Int32, trace: Trace)
    ensures Configured(timeout, trace) && trace.connect.Connected? ==>
              Reports(Flow(number, timeout, trace).actions) == Outcomes(timeout, trace.attempts, 0, Flow(number, timeout, trace).attempts)
    ensures Configured(timeout, trace) && trace.connect.Connected? && Flow(number, timeout, trace).ending == Completed ==>
              |Reports(Flow(number, timeout, trace).actions)| == Flow(number, timeout, trace).attempts
    ensures Configured(timeout, trace) && trace.connect.ConnectFailed? ==>
              Flow(number, timeout, trace).attempts == 0
              && Reports(Flow(number, timeout, trace).actions) == if TransientConnectError(trace.connect.err) then [TimedOut] else []
    ensures !Configured(timeout, trace) ==> Flow(number, timeout, trace) == Run([], 0, Ended)
  {
    var A := trace.attempts;
    if Configured(timeout, trace) && trace.connect.Connected? {
      AttemptsReports(number, timeout, A, 0);
      AttemptsEnding(number, timeout, A, 0);
      if Flow(number, timeout, trace).ending == Completed {
        AllContinueOutcomes(timeout, A, 0, Flow(number, timeout, trace).attempts);
      }
    } else if Configured(timeout, trace) {
      assert Reports([Print(TimedOut)]) == [TimedOut];
    }
  }

  /** Attempts that all go on print one line each. */
  lemma {:induction false} AllContinueOutcomes(timeout: int, A: seq<Attempt>, i: nat, j: nat)
    requires i <= j <= |A|
    requires forall k :: i <= k < j ==> AttemptStep(k, timeout, A[k]).Continue?
    ensures |Outcomes(timeout, A, i, j)| == j - i
    decreases j - i
  {
    if i < j {
      AllContinueOutcomes(timeout, A, i + 1, j);
    }
  }

  /**
    When every attempt goes on (each send succeeds and each receive ends in
    the echo or the socket timeout), a positive count is met exactly, with
    one line per attempt; a count of 0 keeps probing until the trace is used up.
  */
  lemma HealthyFlow(number: int, timeout: Int32, trace: Trace)
    requires Configured(timeout, trace) && trace.connect.Connected?
    requires forall k :: 0 <= k < |trace.attempts| ==> AttemptStep(k, timeout, trace.attempts[k]).Continue?
    ensures 0 < number <= |trace.attempts| ==>
              && Flow(number, timeout, trace).ending == Completed
              && Flow(number, timeout, trace).attempts == number
              && |Reports(Flow(number, timeout, trace).actions)| == number
    ensures number == 0 ==>
              Flow(number, timeout, trace).ending == Stalled && Flow(number, timeout, trace).attempts == |trace.attempts|
  {
    AttemptsEnding(number, timeout, trace.attempts, 0);
    FlowCount(number, timeout, trace);
    FlowReports(number, timeout, trace);
  }

  /** A flow ends early exactly at the first attempt that stops, printing what that attempt reported. */
  lemma EndsAtFirstStop(number: int, timeout: Int32, trace: Trace, s: nat)
    requires Configured(timeout, trace) && trace.connect.Connected?
    requires s < |trace.attempts| && Running(number, s)
    requires forall k :: 0 <= k < s ==> AttemptStep(k, timeout, trace.attempts[k]).Continue?
    requires AttemptStep(s, timeout, trace.attempts[s]).Stop?
    ensures Flow(number, timeout, trace).ending == Ended
    ensures Flow(number, timeout, trace).attempts == s + 1
  {
    var A := trace.attempts;
    AttemptsEnding(number, timeout, A, 0);
    var r := Flow(number, timeout, trace);
    if r.attempts <= s {
      if r.ending == Completed {
        assert Running(number, r.attempts) by {
          if number != 0 {
            assert r.attempts < number;
          }
        }
      }
    }
  }

  /** Replies carrying another sequence number are read past without effect. */
  lemma {:induction false} MismatchesDiscarded(data: int, junk: seq<RecvResult>, rest: seq<RecvResult>)
    requires forall k :: 0 <= k < |junk| ==> junk[k].Received? && junk[k].value != data
    ensures Receive(data, junk + rest) == Receive(data, rest)
  {
    if junk == [] {
      assert junk + rest == rest;
    } else {
      assert (junk + rest)[0] == junk[0] && (junk + rest)[1..] == junk[1..] + rest;
      MismatchesDiscarded(data, junk[1..], rest);
    }
  }

  /**
    How one attempt is classified, whatever mismatched replies come first:
    a failed send stops the flow, with a timeout line only for EPIPE; the
    first reply that is not a mismatch decides the rest: the echo gives
    one line, a success within the timeout and a timeout line beyond it; a
    would-block gives a timeout line and the flow goes on; a reset or a
    closed connection gives a timeout line and stops; any other receive
    error stops without a line.
  */
  lemma AttemptClassified(data: int, timeout: int, send: SendResult, junk: seq<RecvResult>, x: RecvResult,
                          rest: seq<RecvResult>, elapsed: nat)
    requires forall k :: 0 <= k < |junk| ==> junk[k].Received? && junk[k].value != data
    requires x.Received? ==> x.value == data
    ensures var st := AttemptStep(data, timeout, Attempt(send, junk + [x] + rest, elapsed));
            send.SendFailed? ==> st == Stop(if send.err == EPIPE then Some(TimedOut) else None)
    ensures var st := AttemptStep(data, timeout, Attempt(send, junk + [x] + rest, elapsed));
            send.Sent? && x.Received? ==> st == Continue(if elapsed <= timeout then Success(elapsed) else TimedOut)
    ensures var st := AttemptStep(data, timeout, Attempt(send, junk + [x] + rest, elapsed));
            send.Sent? && x == RecvFailed(EWOULDBLOCK) ==> st == Continue(TimedOut)
    ensures var st := AttemptStep(data, timeout, Attempt(send, junk + [x] + rest, elapsed));
            send.Sent? && (x == RecvClosed || x == RecvFailed(ECONNRESET)) ==> st == Stop(Some(TimedOut))
    ensures var st := AttemptStep(data, timeout, Attempt(send, junk + [x] + rest, elapsed));
            send.Sent? && x.RecvFailed? && x.err != EWOULDBLOCK && x.err != ECONNRESET ==> st == Stop(None)
  {
    assert junk + [x] + rest == junk + ([x] + rest);
    MismatchesDiscarded(data, junk, [x] + rest);
    assert ([x] + rest)[0] == x;
  }

  /**
    Pacing: every one-second sleep is directly followed by the send of a
    non-zero sequence number, and every such send directly follows a sleep.
  */
  predicate Paced(acts: seq<Action>) {
    && (forall k :: 0 <= k < |acts| && acts[k] == Sleep ==> k + 1 < |acts| && acts[k + 1].Send? && acts[k + 1].data != 0)
    && (forall k :: 0 <= k < |acts| && acts[k].Send? && acts[k].data != 0 ==> 0 < k && acts[k - 1] == Sleep)
  }

  lemma PacedConcat(x: seq<Action>, y: seq<Action>)
    requires Paced(x) && Paced(y)
    ensures Paced(x + y)
  {
    var xy := x + y;
    forall k | 0 <= k < |xy| && xy[k] == Sleep
      ensures k + 1 < |xy| && xy[k + 1].Send? && xy[k + 1].data != 0
    {
      if k < |x| {
        assert x[k] == Sleep;
      } else {
        assert y[k - |x|] == Sleep;
      }
    }
    forall k | 0 <= k < |xy| && xy[k].Send? && xy[k].data != 0
      ensures 0 < k && xy[k - 1] == Sleep
    {
      if k < |x| {
        assert x[k] == xy[k];
      } else {
        assert y[k - |x|] == xy[k];
      }
    }
  }

  lemma {:induction false} AttemptsPaced(number: int, timeout: int, A: seq<Attempt>, i: nat)
    requires i <= |A|
    ensures Paced(Attempts(number, timeout, A, i).actions)
    decreases |A| - i
  {
    if Running(number, i) && i < |A| {
      var s := AttemptStep(i, timeout, A[i]);
      AttemptsUnfold(number, timeout, A, i);
      BlockFacts(i, s);
      if s.Continue? {
        AttemptsPaced(number, timeout, A, i + 1);
        PacedConcat(Block(i, s), Attempts(number, timeout, A, i + 1).actions);
      }
    }
  }

  /** A flow sleeps one second between consecutive sends, and at no other time. */
  lemma FlowPaced(number: int, timeout: Int32, trace: Trace)
    ensures Paced(Flow(number, timeout, trace).actions)
  {
    if Configured(timeout, trace) && trace.connect.Connected? {
      AttemptsPaced(number, timeout, trace.attempts, 0);
    } else {
      assert Paced([Print(TimedOut)]);
    }
  }
}
