/**
  The command line: the configuration-file reader (one descriptor per line,
  blank lines and '#' comments skipped, surrounding whitespace trimmed), the
  size argument, and the decision main makes from its arguments. Opening and
  reading files, the Bluetooth scan, and the outcome of each registration's
  connect and thread are inputs gathered in an environment.
*/
module Cli {
  import opened Wrappers
  import opened CInt
  import Text
  import opened DataStream
  import opened Dispatcher

  // ---------------------------------------------------------------------------
  // One line of a configuration file

  /** The C string a getline buffer holds: the text before its first NUL. */
  function CStr(line: string): (c: string)
    ensures Nul !in c && c <= line
    ensures Nul !in line ==> c == line
    ensures |c| < |line| ==> line[|c|] == Nul
  {
    match Text.FindChar(line, Nul)
    case None => line
    case Some(i) => line[..i]
  }

  /** The trailing-whitespace loop: steps `end` back over spaces, never past index 0. */
  function TrimEnd(t: string, end: nat): (e: nat)
    requires end < |t|
    ensures e <= end
    ensures e == 0 || !Text.IsSpace(t[e])
    ensures forall k :: e < k <= end ==> Text.IsSpace(t[k])
  {
    if end != 0 && Text.IsSpace(t[end]) then TrimEnd(t, end - 1) else end
  }

  /** `x` sits in `c` at `a`, with nothing but whitespace around it. */
  predicate Framed(c: string, a: nat, x: string) {
    && a + |x| <= |c|
    && c[a..a + |x|] == x
    && Text.AllSpace(c[..a])
    && Text.AllSpace(c[a + |x|..])
  }

  /**
    The descriptor a line of a configuration file holds: nothing when the
    line is blank or its first non-blank character is '#', and otherwise the
    line with its leading and trailing whitespace removed.
  */
  function DescriptorOfLine(line: string): (r: Option<string>)
    ensures var c := CStr(line); var t := c[Text.LeadingSpace(c)..];
      r.None? <==> t == [] || t[0] == '#'
    ensures r.Some? ==>
      var x := r.value;
      && x != [] && x[0] != '#' && Nul !in x
      && !Text.IsSpace(x[0]) && !Text.IsSpace(x[|x| - 1])
      && exists a :: Framed(CStr(line), a, x)
  {
    var c := CStr(line);
    var a := Text.LeadingSpace(c);
    var t := c[a..];
    if t == [] || t[0] == '#' then None
    else
      var e := TrimEnd(t, |t| - 1);
      TrimmedIsFramed(c, a, t, e);
      Some(t[..e + 1])
  }

  /** The text between the leading blanks and the trailing blanks is framed by them. */
  lemma TrimmedIsFramed(c: string, a: nat, t: string, e: nat)
    requires a <= |c| && Text.AllSpace(c[..a]) && t == c[a..]
    requires e < |t| && forall k :: e < k < |t| ==> Text.IsSpace(t[k])
    ensures Framed(c, a, t[..e + 1])
    ensures Nul !in c ==> Nul !in t[..e + 1]
  {
    var x := t[..e + 1];
    assert c[a..a + |x|] == x;
    var u := c[a + |x|..];
    assert Text.AllSpace(u) by {
      forall k | 0 <= k < |u| ensures Text.IsSpace(u[k]) {
        assert u[k] == t[e + 1 + k];
      }
    }
    assert forall k :: 0 <= k < |x| ==> x[k] == c[a + k];
  }

  lemma {:induction false} TrimEndOf(x: string, post: string, end: nat)
    requires x != [] && !Text.IsSpace(x[|x| - 1])
    requires Text.AllSpace(post)
    requires |x| - 1 <= end < |x| + |post|
    ensures TrimEnd(x + post, end) == |x| - 1
    decreases end
  {
    if end > |x| - 1 {
      assert (x + post)[end] == post[end - |x|];
      TrimEndOf(x, post, end - 1);
    }
  }

  /**
    Every descriptor is recovered from a line that pads it with whitespace
    on either side; in particular a descriptor line is read back unchanged.
  */
  lemma DescriptorOfPaddedLine(pre: string, x: string, post: string)
    requires Text.AllSpace(pre) && Text.AllSpace(post)
    requires x != [] && x[0] != '#' && Nul !in x
    requires !Text.IsSpace(x[0]) && !Text.IsSpace(x[|x| - 1])
    ensures DescriptorOfLine(pre + x + post) == Some(x)
  {
    var line := pre + x + post;
    assert Nul !in line by {
      forall k | 0 <= k < |line| ensures line[k] != Nul {
        if k < |pre| {
          assert line[k] == pre[k];
        } else if k < |pre| + |x| {
          assert line[k] == x[k - |pre|];
        } else {
          assert line[k] == post[k - |pre| - |x|];
        }
      }
    }
    assert line == pre + (x + post);
    Text.LeadingSpaceOf(pre, x + post);
    assert line[|pre|..] == x + post;
    TrimEndOf(x, post, |x + post| - 1);
    assert (x + post)[..|x|] == x;
  }

  /** Trimming is idempotent: the descriptor read from a line, read as a line itself, is unchanged. */
  lemma TrimIdempotent(line: string)
    requires DescriptorOfLine(line).Some?
    ensures DescriptorOfLine(DescriptorOfLine(line).value) == DescriptorOfLine(line)
  {
    DescriptorOfBareLine(DescriptorOfLine(line).value);
  }

  lemma DescriptorOfBareLine(x: string)
    requires x != [] && x[0] != '#' && Nul !in x
    requires !Text.IsSpace(x[0]) && !Text.IsSpace(x[|x| - 1])
    ensures DescriptorOfLine(x) == Some(x)
  {
    var none: string := [];
    assert none + x + none == x;
    DescriptorOfPaddedLine(none, x, none);
  }

  // ---------------------------------------------------------------------------
  // The environment

  /**
    What the outside world answers: the lines of every file that can be
    opened, the outcome of registering each descriptor, whether Bluetooth
    support is compiled in, and whether a Bluetooth scan succeeds.
  */
  datatype Env = Env(
    files: map<string, seq<string>>,
    drivers: string -> DriverOutcome,
    withBt: bool,
    scanOk: bool)

  /** stream_add with the environment's answers for this descriptor. */
  function Add(d: Dispatcher, s: string, env: Env): (Outcome<AddError>, Dispatcher) {
    StreamAdd(d, s, env.drivers(s), env.withBt)
  }

  // ---------------------------------------------------------------------------
  // file_parse

  /** The values a line reader `f` picks out of the lines, in order. */
  function Keep(f: string -> Option<string>, lines: seq<string>): (r: seq<string>)
    ensures |r| <= |lines|
    decreases |lines|
  {
    if lines == [] then []
    else match f(lines[0])
      case None => Keep(f, lines[1..])
      case Some(x) => [x] + Keep(f, lines[1..])
  }

  lemma {:induction false} KeepAppend(f: string -> Option<string>, a: seq<string>, b: seq<string>)
    ensures Keep(f, a + b) == Keep(f, a) + Keep(f, b)
    decreases |a|
  {
    if a == [] {
      assert a + b == b;
    } else {
      assert (a + b)[0] == a[0];
      assert (a + b)[1..] == a[1..] + b;
      KeepAppend(f, a[1..], b);
    }
  }

  lemma {:induction false} KeepMembers(f: string -> Option<string>, lines: seq<string>)
    ensures forall x :: x in Keep(f, lines) <==> exists k :: 0 <= k < |lines| && f(lines[k]) == Some(x)
    decreases |lines|
  {
    if lines != [] {
      KeepMembers(f, lines[1..]);
      forall x ensures x in Keep(f, lines) <==> exists k :: 0 <= k < |lines| && f(lines[k]) == Some(x) {
        if exists k :: 0 <= k < |lines| && f(lines[k]) == Some(x) {
          var k :| 0 <= k < |lines| && f(lines[k]) == Some(x);
          if k > 0 {
            assert lines[1..][k - 1] == lines[k];
          }
        }
        if x in Keep(f, lines[1..]) {
          var k :| 0 <= k < |lines[1..]| && f(lines[1..][k]) == Some(x);
          assert lines[k + 1] == lines[1..][k];
        }
      }
    }
  }

  /** The descriptors of a file's lines, in order. */
  function Descriptors(lines: seq<string>): (ds: seq<string>)
    ensures |ds| <= |lines|
  {
    Keep(DescriptorOfLine, lines)
  }

  /** The descriptors of a file split in two are those of its first part followed by those of its second. */
  lemma DescriptorsAppend(a: seq<string>, b: seq<string>)
    ensures Descriptors(a + b) == Descriptors(a) + Descriptors(b)
  {
    KeepAppend(DescriptorOfLine, a, b);
  }

  /** A file offers exactly the descriptors of its lines that hold one. */
  lemma DescriptorsOfLines(lines: seq<string>)
    ensures forall x :: x in Descriptors(lines) <==>
      exists k :: 0 <= k < |lines| && DescriptorOfLine(lines[k]) == Some(x)
  {
    KeepMembers(DescriptorOfLine, lines);
  }

  /**
    Registers descriptors in order; the first refused registration ends the
    walk with failure and the remaining descriptors are never offered.
  */
  function AddAll(d: Dispatcher, ds: seq<string>, env: Env): (r: (bool, Dispatcher))
    requires Wf(d)
    ensures Wf(r.1)
    ensures r.1.msgLen == d.msgLen && r.1.started == d.started
    decreases |ds|
  {
    if ds == [] then (true, d)
    else
      var added := Add(d, ds[0], env);
      StreamAddKeepsWf(d, ds[0], env.drivers(ds[0]), env.withBt);
      if added.0.Fail? then (false, added.1)
      else AddAll(added.1, ds[1..], env)
  }

  /**
    file_parse over the lines of an opened file: the descriptor of each line
    that holds one is registered, in file order, up to the first refusal.
  */
  function FileParse(d: Dispatcher, lines: seq<string>, env: Env): (r: (bool, Dispatcher))
    requires Wf(d)
    ensures Wf(r.1)
    ensures r.1.msgLen == d.msgLen && r.1.started == d.started
  {
    AddAll(d, Descriptors(lines), env)
  }

  /**
    A walk that reaches the end registers one stream per descriptor, the
    last one at the head, in front of the streams registered before.
  */
  lemma {:induction false} AddAllRegistersEach(d: Dispatcher, ds: seq<string>, env: Env)
    requires Wf(d)
    requires AddAll(d, ds, env).0
    ensures Registered(AddAll(d, ds, env).1.streams, d.streams, ds)
    decreases |ds|
  {
    if ds != [] {
      var added := Add(d, ds[0], env);
      StreamAddKeepsWf(d, ds[0], env.drivers(ds[0]), env.withBt);
      AddAllRegistersEach(added.1, ds[1..], env);
      RegisteredCons(AddAll(d, ds, env).1.streams, added.1.streams, d.streams, ds);
    }
  }

  /** `after` is `before` with one stream in front per descriptor of `ds`, the last descriptor's first. */
  predicate Registered(after: seq<Stream>, before: seq<Stream>, ds: seq<string>) {
    && |after| == |before| + |ds|
    && after[|ds|..] == before
    && forall k :: 0 <= k < |ds| ==> after[|ds| - 1 - k].descriptor == ds[k]
  }

  lemma RegisteredCons(after: seq<Stream>, mid: seq<Stream>, before: seq<Stream>, ds: seq<string>)
    requires ds != []
    requires |mid| == |before| + 1 && mid[1..] == before && mid[0].descriptor == ds[0]
    requires Registered(after, mid, ds[1..])
    ensures Registered(after, before, ds)
  {
    var m := |ds| - 1;
    assert after[m..] == mid;
    assert after[|ds|..] == mid[1..];
    forall k | 0 <= k < |ds| ensures after[|ds| - 1 - k].descriptor == ds[k] {
      if k == 0 {
        assert after[m] == mid[0];
      } else {
        assert ds[1..][k - 1] == ds[k];
      }
    }
  }

  /** After a refused descriptor the rest are never offered: the outcome is that of the walk up to it. */
  lemma {:induction false} AddAllStopsAtFailure(d: Dispatcher, ds: seq<string>, k: nat, env: Env)
    requires Wf(d) && k <= |ds|
    requires !AddAll(d, ds[..k], env).0
    ensures AddAll(d, ds, env) == AddAll(d, ds[..k], env)
    decreases k
  {
    assert k > 0;
    assert ds[..k][0] == ds[0];
    assert ds[..k][1..] == ds[1..][..k - 1];
    var added := Add(d, ds[0], env);
    StreamAddKeepsWf(d, ds[0], env.drivers(ds[0]), env.withBt);
    if added.0.Pass? {
      AddAllStopsAtFailure(added.1, ds[1..], k - 1, env);
    }
  }

  // ---------------------------------------------------------------------------
  // The size argument

  /**
    -s SIZE: strtol must read at least one digit and stop exactly at the end
    of the argument; the long it reads is then stored in the size_t field.
  */
  function ParseSize(arg: string): (r: Option<nat>)
    ensures r.Some? ==> r.value <= SizeMax
    ensures r.Some? ==> arg != [] && Text.IsDigit(arg[|arg| - 1])
  {
    var (value, end) := Text.Strtol(arg);
    if end == 0 || end != |arg| then None else Some(ToSizeT(value))
  }

  /** The arguments strtol reads whole: blanks, at most one sign, then digits up to the end. */
  predicate IsSizeText(arg: string) {
    exists a, b :: 0 <= a <= b < |arg| && Text.IsNumeral(arg[..a], arg[a..b], arg[b..])
  }

  /** A numeral that fills the argument is accepted, as its value clamped to long and then stored in a size_t. */
  lemma ParseSizeReadsNumeral(arg: string, a: nat, b: nat)
    requires a <= b < |arg| && Text.IsNumeral(arg[..a], arg[a..b], arg[b..])
    ensures ParseSize(arg) == Some(ToSizeT(ClampLong(Text.SignedValue(arg[a..b], arg[b..]))))
  {
    assert arg[b..|arg|] == arg[b..];
    Text.StrtolReads(arg, a, b, |arg|);
  }

  /** A size is accepted exactly when the whole argument is a numeral: "1x5", "x5", "5 5" and "" are refused. */
  lemma ParseSizeAcceptsIff(arg: string)
    ensures ParseSize(arg).Some? <==> IsSizeText(arg)
  {
    if IsSizeText(arg) {
      var a, b :| 0 <= a <= b < |arg| && Text.IsNumeral(arg[..a], arg[a..b], arg[b..]);
      ParseSizeReadsNumeral(arg, a, b);
    }
    if ParseSize(arg).Some? {
      Text.StrtolReadsOnlyNumerals(arg);
      var a, b :| 0 <= a <= b < |arg| && Text.IsNumeral(arg[..a], arg[a..b], arg[b..|arg|]);
      assert arg[b..|arg|] == arg[b..];
    }
  }

  /** A plain decimal numeral within the range of long is accepted as its value. */
  lemma ParseSizeDecimal(arg: string)
    requires arg != [] && Text.AllDigits(arg)
    requires Text.DecimalValue(arg) <= LongMax
    ensures ParseSize(arg) == Some(Text.DecimalValue(arg))
  {
    Text.StrtolReadsNumeral(arg);
  }

  /** "-1" is accepted and wraps to SIZE_MAX, although no size may be negative. */
  lemma ParseSizeMinusOne()
    ensures ParseSize("-1") == Some(SizeMax)
  {
    var s := "-1";
    assert Text.LeadingSpace(s) == 0;
    assert Text.DigitsEnd(s, 1) == 2;
    assert s[1..2] == "1";
    assert Text.DecimalValue("1") == 1 by {
      assert "1"[..0] == [];
    }
  }

  // ---------------------------------------------------------------------------
  // main

  /** Why a run ends before relaying. */
  datatype CliError =
    | ScanTakesNoOptions
    | MissingFileName
    | FileFailed(name: string)
    | MissingSize
    | BadSize(arg: string)
    | UnknownOption(opt: string)
    | SizeRequired

  /** What main does: print usage, scan, stop on an error, or relay over the dispatcher it built. */
  datatype Run = Usage | Scanned(ok: bool) | Stopped(why: CliError) | Relaying(d: Dispatcher)

  /** The exit status: 0 (EXIT_SUCCESS) or 1 (EXIT_FAILURE). */
  function ExitCode(r: Run): int {
    match r
    case Usage => 0
    case Scanned(ok) => if ok then 0 else 1
    case Stopped(_) => 1
    case Relaying(_) => 0
  }

  /** Whether an argument is taken as an option: it starts with '-'. */
  predicate IsOption(a: string) {
    a != [] && a[0] == '-'
  }

  /**
    The streaming-mode argument loop from position `i`: options and
    descriptors are handled left to right; a refused command-line descriptor
    is skipped, everything else that goes wrong stops the run. At the end a
    size of 0 stops the run, otherwise the relay starts.
  */
  function Options(args: seq<string>, i: nat, d: Dispatcher, env: Env): (r: Run)
    requires i <= |args| && Wf(d) && !d.started
    ensures r.Usage? == false && r.Scanned? == false
    ensures r.Relaying? ==> Wf(r.d) && 0 < r.d.msgLen <= SizeMax && !r.d.started
    decreases |args| - i
  {
    if i == |args| then
      if d.msgLen == 0 then Stopped(SizeRequired) else Relaying(d)
    else
      var a := args[i];
      if IsOption(a) then
        if a == "-f" || a == "--file" then
          if i + 1 >= |args| then Stopped(MissingFileName)
          else
            var name := args[i + 1];
            if name !in env.files then Stopped(FileFailed(name))
            else
              var (ok, d') := FileParse(d, env.files[name], env);
              if !ok then Stopped(FileFailed(name))
              else Options(args, i + 2, d', env)
        else if a == "-s" || a == "--size" then
          if i + 1 >= |args| then Stopped(MissingSize)
          else match ParseSize(args[i + 1])
            case None => Stopped(BadSize(args[i + 1]))
            case Some(n) => Options(args, i + 2, d.(msgLen := n), env)
        else Stopped(UnknownOption(a))
      else
        var added := Add(d, a, env);
        StreamAddKeepsWf(d, a, env.drivers(a), env.withBt);
        Options(args, i + 1, added.1, env)
  }

  /**
    main, given the arguments after the program name: no argument prints the
    usage; "scan" first selects scanning, which takes no further argument
    and only scans when Bluetooth support is compiled in; anything else is
    streaming mode over a fresh dispatcher.
  */
  function Main(args: seq<string>, env: Env): (r: Run)
    ensures args == [] <==> r == Usage
    ensures r.Scanned? <==> args == ["scan"]
    ensures r.Scanned? ==> (r.ok <==> !env.withBt || env.scanOk)
    ensures |args| > 1 && args[0] == "scan" ==> r == Stopped(ScanTakesNoOptions)
    ensures r.Relaying? ==> Wf(r.d) && 0 < r.d.msgLen <= SizeMax && !r.d.started
  {
    if args == [] then Usage
    else if args[0] == "scan" then
      if |args| > 1 then Stopped(ScanTakesNoOptions) else Scanned(!env.withBt || env.scanOk)
    else Options(args, 0, New(), env)
  }

  // ---------------------------------------------------------------------------
  // What a relay run is built from

  /** One element of the argument list once its syntax is read: a -f file, a -s size or a descriptor. */
  datatype Item = FileArg(name: string) | SizeArg(size: nat) | DescArg(desc: string)

  function Cons(x: Item, rest: Result<seq<Item>, CliError>): Result<seq<Item>, CliError> {
    match rest
    case Ok(items) => Ok([x] + items)
    case Err(e) => Err(e)
  }

  /**
    The syntax of the streaming-mode arguments from position `i`, with no
    file opened and no stream registered: each option with its value, each
    descriptor, or the first syntax error.
  */
  function Items(args: seq<string>, i: nat): Result<seq<Item>, CliError>
    requires i <= |args|
    decreases |args| - i
  {
    if i == |args| then Ok([])
    else
      var a := args[i];
      if !IsOption(a) then Cons(DescArg(a), Items(args, i + 1))
      else if a == "-f" || a == "--file" then
        if i + 1 >= |args| then Err(MissingFileName) else Cons(FileArg(args[i + 1]), Items(args, i + 2))
      else if a == "-s" || a == "--size" then
        if i + 1 >= |args| then Err(MissingSize)
        else match ParseSize(args[i + 1])
          case None => Err(BadSize(args[i + 1]))
          case Some(n) => Cons(SizeArg(n), Items(args, i + 2))
      else Err(UnknownOption(a))
  }

  /** The size the last -s item gives, or `init` when there is none. */
  function LastSize(items: seq<Item>, init: nat): nat
    decreases |items|
  {
    if items == [] then init
    else if items[|items| - 1].SizeArg? then items[|items| - 1].size
    else LastSize(items[..|items| - 1], init)
  }

  /** Read left to right, a -s item replaces the size so far. */
  lemma {:induction false} LastSizeCons(x: Item, rest: seq<Item>, init: nat)
    ensures LastSize([x] + rest, init) == LastSize(rest, if x.SizeArg? then x.size else init)
    decreases |rest|
  {
    if rest != [] {
      var all := [x] + rest;
      assert all[|all| - 1] == rest[|rest| - 1];
      assert all[..|all| - 1] == [x] + rest[..|rest| - 1];
      LastSizeCons(x, rest[..|rest| - 1], init);
    } else {
      assert ([x] + rest)[..0] == [];
    }
  }

  /** The descriptors offered for registration, in argument order, a file's lines in place of its -f. */
  function Offered(items: seq<Item>, files: map<string, seq<string>>): seq<string>
    decreases |items|
  {
    if items == [] then []
    else
      var here := match items[0]
        case FileArg(name) => if name in files then Descriptors(files[name]) else []
        case SizeArg(_) => []
        case DescArg(x) => [x];
      here + Offered(items[1..], files)
  }

  /** `xs` is `ys` with some elements left out, the others kept in order. */
  predicate IsSubseq(xs: seq<string>, ys: seq<string>)
    decreases |ys|
  {
    xs == [] || (ys != [] && ((xs[0] == ys[0] && IsSubseq(xs[1..], ys[1..])) || IsSubseq(xs, ys[1..])))
  }

  lemma {:induction false} SubseqRefl(xs: seq<string>)
    ensures IsSubseq(xs, xs)
    decreases |xs|
  {
    if xs != [] {
      SubseqRefl(xs[1..]);
    }
  }

  /** Elements may be left out in front. */
  lemma {:induction false} SubseqSkip(p: seq<string>, xs: seq<string>, ys: seq<string>)
    requires IsSubseq(xs, ys)
    ensures IsSubseq(xs, p + ys)
    decreases |p|
  {
    if p == [] {
      assert p + ys == ys;
    } else if xs != [] {
      SubseqSkip(p[1..], xs, ys);
      assert (p + ys)[1..] == p[1..] + ys;
    }
  }

  /** Leaving elements out of two parts leaves them out of the whole. */
  lemma {:induction false} SubseqConcat(a: seq<string>, b: seq<string>, c: seq<string>, e: seq<string>)
    requires IsSubseq(a, b) && IsSubseq(c, e)
    ensures IsSubseq(a + c, b + e)
    decreases |b|
  {
    if a == [] {
      SubseqSkip(b, c, e);
      assert a + c == c;
    } else {
      assert (b + e)[1..] == b[1..] + e;
      assert (a + c)[0] == a[0] && (b + e)[0] == b[0];
      if a[0] == b[0] && IsSubseq(a[1..], b[1..]) {
        SubseqConcat(a[1..], b[1..], c, e);
        assert (a + c)[1..] == a[1..] + c;
      } else {
        SubseqConcat(a, b[1..], c, e);
      }
    }
  }

  /** The descriptors of the streams registered on top of the bottom `k`, oldest first. */
  function Arrivals(streams: seq<Stream>, k: nat): (r: seq<string>)
    requires k <= |streams|
    ensures |r| == |streams| - k
  {
    seq(|streams| - k, j requires 0 <= j < |streams| - k => streams[|streams| - k - 1 - j].descriptor)
  }

  /** Arrivals over a later registry split at an intermediate one, which is a suffix of it. */
  lemma ArrivalsSplit(after: seq<Stream>, k: nat, m: nat)
    requires k <= m <= |after|
    ensures Arrivals(after, k) == Arrivals(after[|after| - m..], k) + Arrivals(after, m)
  {
  }

  /** The streams a successful file walk adds are its descriptors, in order. */
  lemma ArrivalsOfRegistered(after: seq<Stream>, before: seq<Stream>, ds: seq<string>)
    requires Registered(after, before, ds)
    ensures |after| >= |before| && after[|after| - |before|..] == before
    ensures Arrivals(after, |before|) == ds
  {
  }

  /** What one step of the walk does to the dispatcher, measured against the item it reads. */
  predicate StepsBy(d: Dispatcher, next: Dispatcher, x: Item, files: map<string, seq<string>>) {
    && Wf(next) && !next.started
    && next.msgLen == (if x.SizeArg? then x.size else d.msgLen)
    && |next.streams| >= |d.streams| && next.streams[|next.streams| - |d.streams|..] == d.streams
    && IsSubseq(Arrivals(next.streams, |d.streams|), Offered([x], files))
  }

  /**
    One step of the argument walk on the way to a relay run: the item it
    reads, where the walk goes on, and what it has done to the dispatcher
    (set the size, or put streams for some of the item's descriptors on top).
  */
  lemma OptionsStep(args: seq<string>, i: nat, d: Dispatcher, env: Env) returns (j: nat, next: Dispatcher, x: Item)
    requires i < |args| && Wf(d) && !d.started
    requires Options(args, i, d, env).Relaying?
    ensures i < j <= |args| && StepsBy(d, next, x, env.files)
    ensures Options(args, i, d, env) == Options(args, j, next, env)
    ensures Items(args, i) == Cons(x, Items(args, j))
  {
    var a := args[i];
    if !IsOption(a) {
      next := Add(d, a, env).1;
      j, x := i + 1, DescArg(a);
      StepDescriptor(d, a, env);
    } else if a == "-f" || a == "--file" {
      next := FileParse(d, env.files[args[i + 1]], env).1;
      j, x := i + 2, FileArg(args[i + 1]);
      StepFile(d, args[i + 1], env);
    } else {
      var n := ParseSize(args[i + 1]).value;
      next, j, x := d.(msgLen := n), i + 2, SizeArg(n);
      assert Offered([x], env.files) == [] + [];
      assert Arrivals(next.streams, |d.streams|) == [];
    }
  }

  lemma StepDescriptor(d: Dispatcher, a: string, env: Env)
    requires Wf(d) && !d.started
    ensures StepsBy(d, Add(d, a, env).1, DescArg(a), env.files)
  {
    var added := Add(d, a, env);
    StreamAddKeepsWf(d, a, env.drivers(a), env.withBt);
    assert [DescArg(a)][1..] == [];
    assert Offered([DescArg(a)], env.files) == [a] + [] == [a];
    if added.0.Pass? {
      assert Arrivals(added.1.streams, |d.streams|) == [a];
      SubseqRefl([a]);
    } else {
      assert Arrivals(added.1.streams, |d.streams|) == [];
    }
  }

  lemma StepFile(d: Dispatcher, name: string, env: Env)
    requires Wf(d) && !d.started && name in env.files
    requires FileParse(d, env.files[name], env).0
    ensures StepsBy(d, FileParse(d, env.files[name], env).1, FileArg(name), env.files)
  {
    var ds := Descriptors(env.files[name]);
    var next := FileParse(d, env.files[name], env).1;
    AddAllRegistersEach(d, ds, env);
    ArrivalsOfRegistered(next.streams, d.streams, ds);
    assert [FileArg(name)][1..] == [];
    assert Offered([FileArg(name)], env.files) == ds + [] == ds;
    SubseqRefl(ds);
  }

  lemma OfferedCons(x: Item, items: seq<Item>, files: map<string, seq<string>>)
    ensures Offered([x] + items, files) == Offered([x], files) + Offered(items, files)
  {
    assert ([x] + items)[1..] == items;
    assert [x][1..] == [];
  }

  /** A suffix of a suffix is a suffix. */
  lemma SuffixTrans(a: seq<Stream>, b: seq<Stream>, c: seq<Stream>)
    requires |b| >= |a| && b[|b| - |a|..] == a
    requires |c| >= |b| && c[|c| - |b|..] == b
    ensures |c| >= |a| && c[|c| - |a|..] == a
  {
    assert c[|c| - |a|..] == c[|c| - |b|..][|b| - |a|..];
  }

  /** The registry grows by the arrivals of each step, in turn. */
  lemma ArrivalsCompose(d: Dispatcher, next: Dispatcher, last: Dispatcher, x: Item, items: seq<Item>, files: map<string, seq<string>>)
    requires |next.streams| >= |d.streams| && next.streams[|next.streams| - |d.streams|..] == d.streams
    requires |last.streams| >= |next.streams| && last.streams[|last.streams| - |next.streams|..] == next.streams
    requires IsSubseq(Arrivals(next.streams, |d.streams|), Offered([x], files))
    requires IsSubseq(Arrivals(last.streams, |next.streams|), Offered(items, files))
    ensures |last.streams| >= |d.streams| && last.streams[|last.streams| - |d.streams|..] == d.streams
    ensures IsSubseq(Arrivals(last.streams, |d.streams|), Offered([x] + items, files))
  {
    SuffixTrans(d.streams, next.streams, last.streams);
    ArrivalsSplit(last.streams, |d.streams|, |next.streams|);
    OfferedCons(x, items, files);
    SubseqConcat(Arrivals(next.streams, |d.streams|), Offered([x], files),
                 Arrivals(last.streams, |next.streams|), Offered(items, files));
  }

  /**
    `last` is what the items build on top of `d`: the message length of the
    last -s item (or `d`'s), and `d`'s registry with streams on top whose
    descriptors are offered ones, in argument order.
  */
  predicate BuiltFrom(d: Dispatcher, last: Dispatcher, items: seq<Item>, files: map<string, seq<string>>) {
    && last.msgLen == LastSize(items, d.msgLen)
    && |last.streams| >= |d.streams|
    && last.streams[|last.streams| - |d.streams|..] == d.streams
    && IsSubseq(Arrivals(last.streams, |d.streams|), Offered(items, files))
  }

  lemma BuiltFromCons(d: Dispatcher, next: Dispatcher, last: Dispatcher, x: Item, items: seq<Item>, files: map<string, seq<string>>)
    requires StepsBy(d, next, x, files) && BuiltFrom(next, last, items, files)
    ensures BuiltFrom(d, last, [x] + items, files)
  {
    LastSizeCons(x, items, d.msgLen);
    ArrivalsCompose(d, next, last, x, items, files);
  }

  /**
    A relay run is built from the arguments as written: their syntax is
    valid, the message length is the value of the last -s, and the registry
    is the starting one with streams on top whose descriptors are offered
    ones, in argument order (a file's lines where its -f stands).
  */
  lemma {:induction false} OptionsRelaying(args: seq<string>, i: nat, d: Dispatcher, env: Env)
    requires i <= |args| && Wf(d) && !d.started
    ensures var r := Options(args, i, d, env);
      r.Relaying? ==> Items(args, i).Ok? && BuiltFrom(d, r.d, Items(args, i).value, env.files)
    decreases |args| - i
  {
    var r := Options(args, i, d, env);
    if r.Relaying? {
      if i == |args| {
        assert r.d == d;
        assert d.streams[|d.streams| - |d.streams|..] == d.streams;
        assert Arrivals(r.d.streams, |d.streams|) == [];
      } else {
        var j, next, x := OptionsStep(args, i, d, env);
        OptionsRelaying(args, j, next, env);
        BuiltFromCons(d, next, r.d, x, Items(args, j).value, env.files);
      }
    }
  }

  /** main's relay run is built from all its arguments over an empty dispatcher. */
  lemma MainRelaying(args: seq<string>, env: Env)
    ensures var r := Main(args, env);
      r.Relaying? ==> Items(args, 0).Ok? && BuiltFrom(New(), r.d, Items(args, 0).value, env.files)
  {
    if args != [] && args[0] != "scan" {
      OptionsRelaying(args, 0, New(), env);
    }
  }

  /** Registers descriptors in order, a refused one leaving the dispatcher as it was. */
  function AddEach(d: Dispatcher, ds: seq<string>, env: Env): (r: Dispatcher)
    requires Wf(d)
    ensures Wf(r) && r.msgLen == d.msgLen && r.started == d.started
    decreases |ds|
  {
    if ds == [] then d
    else
      StreamAddKeepsWf(d, ds[0], env.drivers(ds[0]), env.withBt);
      AddEach(Add(d, ds[0], env).1, ds[1..], env)
  }

  /**
    When only descriptors are left, the walk registers each that is accepted
    and then relays if a size has been given.
  */
  lemma {:induction false} OptionsDescriptorTail(args: seq<string>, i: nat, d: Dispatcher, env: Env)
    requires i <= |args| && Wf(d) && !d.started
    requires forall k :: i <= k < |args| ==> !IsOption(args[k])
    ensures var last := AddEach(d, args[i..], env);
      Options(args, i, d, env) == if last.msgLen == 0 then Stopped(SizeRequired) else Relaying(last)
    decreases |args| - i
  {
    if i < |args| {
      StreamAddKeepsWf(d, args[i], env.drivers(args[i]), env.withBt);
      OptionsDescriptorTail(args, i + 1, Add(d, args[i], env).1, env);
      assert args[i..][1..] == args[i + 1..];
    }
  }

  /** A command-line descriptor whose registration is refused changes nothing: the run goes on as if it were absent. */
  lemma RefusedDescriptorSkipped(args: seq<string>, i: nat, d: Dispatcher, env: Env)
    requires i < |args| && Wf(d) && !d.started
    requires !IsOption(args[i]) && Add(d, args[i], env).0.Fail?
    ensures Options(args, i, d, env) == Options(args, i + 1, d, env)
  {
  }

  /** Unlike a command-line descriptor, a refused line of a configuration file stops the run. */
  lemma RefusedFileLineStops(args: seq<string>, i: nat, d: Dispatcher, env: Env)
    requires i + 1 < |args| && Wf(d) && !d.started
    requires args[i] == "-f" || args[i] == "--file"
    requires args[i + 1] in env.files && !FileParse(d, env.files[args[i + 1]], env).0
    ensures Options(args, i, d, env) == Stopped(FileFailed(args[i + 1]))
    ensures ExitCode(Options(args, i, d, env)) == 1
  {
  }

  /** An argument that starts with '-' but is none of the four options stops the run. */
  lemma UnknownOptionStops(args: seq<string>, i: nat, d: Dispatcher, env: Env)
    requires i < |args| && Wf(d) && !d.started
    requires IsOption(args[i]) && args[i] !in {"-f", "--file", "-s", "--size"}
    ensures Options(args, i, d, env) == Stopped(UnknownOption(args[i]))
  {
  }

  /** Without any -s, streaming mode stops with failure; a -s of 0 is refused by the same final check, as `Options` states. */
  lemma {:induction false} SizeIsRequired(args: seq<string>, i: nat, d: Dispatcher, env: Env)
    requires i <= |args| && Wf(d) && !d.started && d.msgLen == 0
    requires forall k :: i <= k < |args| ==> args[k] != "-s" && args[k] != "--size"
    ensures !Options(args, i, d, env).Relaying?
    decreases |args| - i
  {
    if i < |args| {
      var a := args[i];
      if IsOption(a) {
        if (a == "-f" || a == "--file") && i + 1 < |args| && args[i + 1] in env.files {
          var (ok, d') := FileParse(d, env.files[args[i + 1]], env);
          if ok {
            SizeIsRequired(args, i + 2, d', env);
          }
        }
      } else {
        StreamAddKeepsWf(d, a, env.drivers(a), env.withBt);
        SizeIsRequired(args, i + 1, Add(d, a, env).1, env);
      }
    }
  }

  /** -f or -s as the last argument stops the run: the value it needs is missing. */
  lemma MissingValueStops(args: seq<string>, d: Dispatcher, env: Env)
    requires |args| > 0 && Wf(d) && !d.started
    requires args[|args| - 1] in {"-f", "--file", "-s", "--size"}
    ensures var r := Options(args, |args| - 1, d, env);
      r == Stopped(if args[|args| - 1] in {"-f", "--file"} then MissingFileName else MissingSize)
  {
  }

  /** A size value strtol cannot read whole stops the run: an empty one, one without digits, or one with anything after its numeral. */
  lemma BadSizeStops(args: seq<string>, i: nat, d: Dispatcher, env: Env)
    requires i + 1 < |args| && Wf(d) && !d.started
    requires args[i] == "-s" || args[i] == "--size"
    requires !IsSizeText(args[i + 1])
    ensures Options(args, i, d, env) == Stopped(BadSize(args[i + 1]))
  {
    ParseSizeAcceptsIff(args[i + 1]);
  }
}
