/**
 The basic option's decoder on the ring while the reader goes on publishing. Each octet looked at in the search
 and in the skipping of flags is one step, and so is the copy of the count with all that is parsed from it, since
 what is published later lies behind that copy.
 */
module BasicThreads {
  import opened Octets
  import opened BasicSpec
  import opened BasicStream
  import opened BasicRejection
  import Fcs

  datatype Point = Between | Searching | Skipping | Counting

  /**
   `published`, `marks` and `lates` record what was published, which of the octets read is a flag that was taken for
   an address, and how many publications began with a flag in the window.
   */
  datatype Config = Config(
    point: Point, flag: bool, depth: nat, asserted: bool, unread: seq<Octet>, delivered: seq<Frame>,
    published: seq<Octet>, marks: seq<bool>, lates: nat)

  datatype Action = Publish(p: seq<Octet>) | Begin | Step

  ghost predicate Init(e: Config) {
    e == Config(Between, false, 0, false, [], [], [], [], 0)
  }

  predicate Enabled(e: Config, a: Action) {
    match a
    case Publish(p) => |e.unread| + |p| <= BUFFER_SIZE
    case Begin => e.point.Between? && !e.asserted
    case Step => !e.point.Between?
  }

  /** The skipping loop found the ring empty, and the count has not been copied yet. */
  predicate Window(e: Config) {
    e.point.Counting? && e.unread == []
  }

  /** A flag published into the window has not been parsed yet. */
  predicate LatePending(e: Config) {
    e.point.Counting? && e.unread != [] && e.unread[0] == BASIC_FLAG
  }

  function Unmarked(n: nat): seq<bool> {
    seq(n, _ => false)
  }

  /** The marks of the `n` octets that a decided attempt takes off. */
  function AttemptMarks(late: bool, n: nat): seq<bool> {
    if n == 0 then [] else [late] + Unmarked(n - 1)
  }

  /** One octet is read in the search or in the skipping. */
  function ReadOne(e: Config, point: Point, flag: bool): Config
    requires e.unread != []
  {
    e.(point := point, flag := flag, unread := e.unread[1..], marks := e.marks + [false])
  }

  /** An attempt is decided, and leaves `rest`. */
  function Decided(e: Config, point: Point, rest: seq<Octet>): Config
    requires |rest| <= |e.unread|
  {
    e.(point := point, flag := false, unread := rest,
       marks := e.marks + AttemptMarks(LatePending(e), |e.unread| - |rest|))
  }

  function LookAtRing(n1: Octet -> nat, e: Config): Config
    requires !e.point.Between?
  {
    match e.point
    case Searching =>
      if e.unread == [] then e.(point := Between)
      else if e.unread[0] == BASIC_FLAG then ReadOne(e, Skipping, true)
      else ReadOne(e, Searching, e.flag)
    case Skipping =>
      if e.unread == [] || e.unread[0] != BASIC_FLAG then e.(point := Counting) else ReadOne(e, Skipping, e.flag)
    case Counting =>
      ParseShrinks(n1, e.unread);
      match Parse(n1, e.unread)
      case NeedMore(_, _) => e.(point := Between)
      case Got(f, rest) => Decided(e, Between, rest).(delivered := e.delivered + [f])
      case Drop(rest) =>
        if e.depth + 1 >= MAX_RESYNC_GET_FRAME_COUNT then
          Decided(e, Between, rest).(depth := e.depth + 1, asserted := true)
        else Decided(e, Searching, rest).(depth := e.depth + 1)
  }

  function Apply(n1: Octet -> nat, e: Config, a: Action): Config
    requires Enabled(e, a)
  {
    match a
    case Publish(p) =>
      e.(unread := e.unread + p, published := e.published + p,
         lates := e.lates + if Window(e) && p != [] && p[0] == BASIC_FLAG then 1 else 0)
    case Begin => e.(point := if e.flag then Skipping else Searching, depth := 0)
    case Step => LookAtRing(n1, e)
  }

  predicate Runs(n1: Octet -> nat, e: Config, trace: seq<Action>)
    decreases |trace|
  {
    trace == [] || (Enabled(e, trace[0]) && Runs(n1, Apply(n1, e, trace[0]), trace[1..]))
  }

  function Run(n1: Octet -> nat, e: Config, trace: seq<Action>): Config
    requires Runs(n1, e, trace)
    decreases |trace|
  {
    if trace == [] then e else Run(n1, Apply(n1, e, trace[0]), trace[1..])
  }

  predicate PointOk(e: Config) {
    match e.point
    case Between => true
    case Searching => !e.flag
    case _ => e.flag
  }

  // ----- Without late flags every interleaving is one run -----

  /** What was and will be delivered, and how it ends, is the same. */
  predicate Same(n1: Octet -> nat, e: Config, d: Config) {
    && d.delivered + RunFrames(n1, d.flag, d.unread) == e.delivered + RunFrames(n1, e.flag, e.unread)
    && RunEnd(n1, d.flag, d.unread) == RunEnd(n1, e.flag, e.unread)
  }

  lemma SearchOn(n1: Octet -> nat, c: seq<Octet>)
    requires c != []
    ensures c[0] != BASIC_FLAG ==> Try(n1, false, c) == Try(n1, false, c[1..])
    ensures c[0] == BASIC_FLAG ==> Try(n1, false, c) == Try(n1, true, c) == Try(n1, true, c[1..])
  {
    hide Parse;
    FlagEitherWay(n1, c);
    FlagEitherWay(n1, c[1..]);
    assert c == [c[0]] + c[1..];
  }

  lemma ParseIsTry(n1: Octet -> nat, c: seq<Octet>)
    requires c == [] || c[0] != BASIC_FLAG
    ensures Try(n1, true, c) == Parse(n1, c)
  {
    hide Parse;
  }

  lemma CountingKeeps(n1: Octet -> nat, e: Config)
    requires PointOk(e) && e.point.Counting? && !LatePending(e)
    ensures var d := LookAtRing(n1, e); PointOk(d) && Same(n1, e, d)
  {
    hide Parse, Try;
    ParseIsTry(n1, e.unread);
    TryShrinks(n1, true, e.unread);
    var a := Parse(n1, e.unread);
    if a.Got? {
      JoinThree(e.delivered, [a.frame], RunFrames(n1, false, a.rest));
    }
  }

  lemma LookKeeps(n1: Octet -> nat, e: Config)
    requires PointOk(e) && !e.point.Between? && !LatePending(e)
    ensures var d := LookAtRing(n1, e); PointOk(d) && !LatePending(d) && Same(n1, e, d)
  {
    hide Parse, Try, RunFrames, RunEnd;
    if e.point.Counting? {
      CountingKeeps(n1, e);
    } else if e.unread != [] {
      var u := e.unread;
      SearchOn(n1, u);
      if u[0] == BASIC_FLAG {
        RunsAlike(n1, e.flag, u, true, u[1..]);
      } else {
        RunsAlike(n1, false, u, false, u[1..]);
      }
    }
  }

  predicate Inv(n1: Octet -> nat, e: Config) {
    && PointOk(e)
    && (e.lates == 0 ==>
          && !LatePending(e)
          && e.delivered + RunFrames(n1, e.flag, e.unread) == RunFrames(n1, false, e.published)
          && RunEnd(n1, e.flag, e.unread) == RunEnd(n1, false, e.published))
  }

  lemma InitInv(n1: Octet -> nat, e: Config)
    requires Init(e)
    ensures Inv(n1, e)
  {
    hide RunFrames, RunEnd;
    assert [] + RunFrames(n1, false, []) == RunFrames(n1, false, []);
  }

  lemma StepKeeps(n1: Octet -> nat, e: Config, a: Action)
    requires Inv(n1, e) && Enabled(e, a)
    ensures Inv(n1, Apply(n1, e, a))
  {
    hide RunFrames, RunEnd, Parse;
    match a {
      case Publish(p) =>
        RunAppend(n1, e.flag, e.unread, p);
        RunAppend(n1, false, e.published, p);
        var t := RunEnd(n1, e.flag, e.unread);
        var x, y, z := e.delivered, RunFrames(n1, e.flag, e.unread), RunFrames(n1, t.flag, t.rest + p);
        assert x + (y + z) == (x + y) + z;
      case Begin =>
      case Step =>
        if e.lates == 0 {
          LookKeeps(n1, e);
        }
    }
  }

  lemma {:induction false} RunKeeps(n1: Octet -> nat, e: Config, trace: seq<Action>)
    requires Inv(n1, e) && Runs(n1, e, trace)
    ensures Inv(n1, Run(n1, e, trace))
    decreases |trace|
  {
    hide Inv, Enabled, Apply;
    if trace != [] {
      StepKeeps(n1, e, trace[0]);
      RunKeeps(n1, Apply(n1, e, trace[0]), trace[1..]);
    }
  }

  /**
   Unless a flag is published into the window, what any interleaving delivers is what one run over the stream
   does.
   */
  lemma InterleavingIsInvisible(n1: Octet -> nat, e0: Config, trace: seq<Action>)
    requires Init(e0) && Runs(n1, e0, trace) && Run(n1, e0, trace).lates == 0
    ensures var e := Run(n1, e0, trace);
      && e.delivered + RunFrames(n1, e.flag, e.unread) == RunFrames(n1, false, e.published)
      && RunEnd(n1, e.flag, e.unread) == RunEnd(n1, false, e.published)
  {
    InitInv(n1, e0);
    RunKeeps(n1, e0, trace);
  }

  // ----- With late flags it is the run that takes them for addresses -----

  /** The frames in `c` if attempts follow one another without limit, and begin at the marked flags as well. */
  function MarkedFrames(n1: Octet -> nat, flag: bool, c: seq<Octet>, marks: seq<bool>): seq<Frame>
    requires |marks| == |c|
    decreases |c|
  {
    if c == [] then []
    else if !flag then MarkedFrames(n1, c[0] == BASIC_FLAG, c[1..], marks[1..])
    else if c[0] == BASIC_FLAG && !marks[0] then MarkedFrames(n1, true, c[1..], marks[1..])
    else
      ParseShrinks(n1, c);
      match Parse(n1, c)
      case NeedMore(_, _) => []
      case Got(f, rest) => [f] + MarkedFrames(n1, false, rest, marks[|c| - |rest|..])
      case Drop(rest) => MarkedFrames(n1, false, rest, marks[|c| - |rest|..])
  }

  lemma NothingParses(n1: Octet -> nat)
    ensures Parse(n1, []) == NeedMore(true, [])
  {}

  /** The attempt is that at the octets themselves, if they do not begin with a flag. */
  lemma RunFromAttempt(n1: Octet -> nat, c: seq<Octet>)
    requires c == [] || c[0] != BASIC_FLAG
    ensures var a := Parse(n1, c);
      && |a.rest| <= |c| && (a.Drop? || a.Got? ==> |a.rest| < |c|)
      && RunFrames(n1, true, c)
         == if a.Got? then [a.frame] + RunFrames(n1, false, a.rest)
            else if a.Drop? then RunFrames(n1, false, a.rest) else []
  {
    ParseIsTry(n1, c);
    ParseShrinks(n1, c);
    hide Parse, Try;
  }

  lemma RunReadsOne(n1: Octet -> nat, flag: bool, c: seq<Octet>)
    requires c != [] && (flag ==> c[0] == BASIC_FLAG)
    ensures RunFrames(n1, flag, c) == RunFrames(n1, c[0] == BASIC_FLAG, c[1..])
  {
    hide Try;
    SearchOn(n1, c);
    RunsAlike(n1, flag, c, c[0] == BASIC_FLAG, c[1..]);
  }

  lemma RunOfNone(n1: Octet -> nat, flag: bool)
    ensures RunFrames(n1, flag, []) == []
  {}

  /** Without a mark this is the plain run. */
  lemma {:induction false} UnmarkedIsRun(n1: Octet -> nat, flag: bool, c: seq<Octet>, marks: seq<bool>)
    requires |marks| == |c| && true !in marks
    ensures MarkedFrames(n1, flag, c, marks) == RunFrames(n1, flag, c)
    decreases |c|
  {
    hide Parse, RunFrames;
    if c == [] {
      RunOfNone(n1, flag);
    } else if !flag || c[0] == BASIC_FLAG {
      RunReadsOne(n1, flag, c);
      UnmarkedIsRun(n1, c[0] == BASIC_FLAG, c[1..], marks[1..]);
    } else {
      RunFromAttempt(n1, c);
      var a := Parse(n1, c);
      if !a.NeedMore? {
        UnmarkedIsRun(n1, false, a.rest, marks[|c| - |a.rest|..]);
      }
    }
  }

  /** The run over all that was published, with `x` to come, goes on from where the decoder stands. */
  predicate AccountedFor(n1: Octet -> nat, e: Config, x: seq<Octet>, y: seq<bool>) {
    |e.marks| + |e.unread| == |e.published| && |y| == |e.unread| + |x| ==>
      MarkedFrames(n1, false, e.published + x, e.marks + y) == e.delivered + MarkedFrames(n1, e.flag, e.unread + x, y)
  }

  /** It does so whatever comes. */
  ghost predicate Accounted(n1: Octet -> nat, e: Config) {
    |e.marks| + |e.unread| == |e.published| && forall x, y :: AccountedFor(n1, e, x, y)
  }

  /** Only flags are marked, and none unless one was published into the window. */
  predicate MarksOk(e: Config) {
    && |e.marks| + |e.unread| == |e.published| && e.published[|e.marks|..] == e.unread
    && (forall i :: 0 <= i < |e.marks| && e.marks[i] ==> e.published[i] == BASIC_FLAG)
    && (e.lates == 0 ==> !LatePending(e) && true !in e.marks)
  }

  lemma MarkedPublish(n1: Octet -> nat, e: Config, p: seq<Octet>)
    requires Accounted(n1, e) && Enabled(e, Publish(p))
    ensures Accounted(n1, Apply(n1, e, Publish(p)))
  {
    hide MarkedFrames, AccountedFor;
    var d := Apply(n1, e, Publish(p));
    forall x, y
      ensures AccountedFor(n1, d, x, y)
    {
      PublishedFor(n1, e, d, p, x, y);
    }
  }

  lemma PublishedFor(n1: Octet -> nat, e: Config, d: Config, p: seq<Octet>, x: seq<Octet>, y: seq<bool>)
    requires |e.marks| + |e.unread| == |e.published| && AccountedFor(n1, e, p + x, y)
    requires d.published == e.published + p && d.unread == e.unread + p
    requires d.marks == e.marks && d.delivered == e.delivered && d.flag == e.flag
    ensures AccountedFor(n1, d, x, y)
  {
    hide MarkedFrames;
    JoinThree(e.published, p, x);
    JoinThree(e.unread, p, x);
  }

  lemma SameAccount(n1: Octet -> nat, e: Config, d: Config)
    requires Accounted(n1, e) && d.published == e.published && d.marks == e.marks && d.delivered == e.delivered
    requires d.flag == e.flag && d.unread == e.unread
    ensures Accounted(n1, d)
  {
    hide MarkedFrames;
    forall x, y
      ensures AccountedFor(n1, d, x, y)
    {
      assert AccountedFor(n1, e, x, y);
    }
  }

  /** The octets taken off with the marks `m` make up what is delivered, with `x` behind. */
  predicate PassesFor(n1: Octet -> nat, e: Config, d: Config, m: seq<bool>, got: seq<Frame>, x: seq<Octet>, y: seq<bool>) {
    |m| + |d.unread| == |e.unread| && |y| == |d.unread| + |x| ==>
      MarkedFrames(n1, e.flag, e.unread + x, m + y) == got + MarkedFrames(n1, d.flag, d.unread + x, y)
  }

  ghost predicate Passes(n1: Octet -> nat, e: Config, d: Config, m: seq<bool>, got: seq<Frame>) {
    |m| + |d.unread| == |e.unread| && forall x, y :: PassesFor(n1, e, d, m, got, x, y)
  }

  lemma MarkedPasses(n1: Octet -> nat, e: Config, d: Config, m: seq<bool>, got: seq<Frame>)
    requires Accounted(n1, e) && Passes(n1, e, d, m, got)
    requires d.published == e.published && d.marks == e.marks + m && d.delivered == e.delivered + got
    ensures Accounted(n1, d)
  {
    hide MarkedFrames, AccountedFor, PassesFor;
    forall x, y
      ensures AccountedFor(n1, d, x, y)
    {
      assert PassesFor(n1, e, d, m, got, x, y);
      PassedFor(n1, e, d, m, got, x, y);
    }
  }

  lemma PassedFor(n1: Octet -> nat, e: Config, d: Config, m: seq<bool>, got: seq<Frame>, x: seq<Octet>, y: seq<bool>)
    requires |e.marks| + |e.unread| == |e.published| && |m| + |d.unread| == |e.unread|
    requires AccountedFor(n1, e, x, m + y) && PassesFor(n1, e, d, m, got, x, y)
    requires d.published == e.published && d.marks == e.marks + m && d.delivered == e.delivered + got
    ensures AccountedFor(n1, d, x, y)
  {
    if |y| == |d.unread| + |x| {
      hide MarkedFrames;
      JoinThree(e.marks, m, y);
      JoinThree(e.delivered, got, MarkedFrames(n1, d.flag, d.unread + x, y));
    }
  }

  lemma OnePasses(n1: Octet -> nat, e: Config, d: Config)
    requires e.unread != [] && (e.flag ==> e.unread[0] == BASIC_FLAG)
    requires d.unread == e.unread[1..] && d.flag == (e.unread[0] == BASIC_FLAG)
    ensures Passes(n1, e, d, [false], [])
  {
    hide PassesFor;
    forall x, y
      ensures PassesFor(n1, e, d, [false], [], x, y)
    {
      OnePassesFor(n1, e, d, x, y);
    }
  }

  lemma OnePassesFor(n1: Octet -> nat, e: Config, d: Config, x: seq<Octet>, y: seq<bool>)
    requires e.unread != [] && (e.flag ==> e.unread[0] == BASIC_FLAG)
    requires d.unread == e.unread[1..] && d.flag == (e.unread[0] == BASIC_FLAG)
    ensures PassesFor(n1, e, d, [false], [], x, y)
  {
    hide MarkedFrames;
    if |y| == |d.unread| + |x| {
      var c := e.unread + x;
      assert c[1..] == d.unread + x && c[0] == e.unread[0];
      MarkedOne(n1, e.flag, c, y);
    }
  }

  lemma MarkedOne(n1: Octet -> nat, flag: bool, c: seq<Octet>, y: seq<bool>)
    requires c != [] && (flag ==> c[0] == BASIC_FLAG) && |y| == |c| - 1
    ensures MarkedFrames(n1, flag, c, [false] + y) == MarkedFrames(n1, c[0] == BASIC_FLAG, c[1..], y)
  {
    hide Parse;
    assert ([false] + y)[1..] == y;
  }

  /** The frame of an attempt, if it has one. */
  function Gained(a: Attempt): seq<Frame> {
    if a.Got? then [a.frame] else []
  }

  /** A decided attempt, as a step of the decoder. */
  lemma LookAttempts(n1: Octet -> nat, e: Config)
    requires e.point.Counting?
    ensures var d, a := LookAtRing(n1, e), Parse(n1, e.unread);
      if a.NeedMore? then d == e.(point := Between)
      else
        && |a.rest| < |e.unread| && a.rest == e.unread[|e.unread| - |a.rest|..] && d.unread == a.rest && !d.flag
        && d.marks == e.marks + AttemptMarks(LatePending(e), |e.unread| - |a.rest|)
        && d.delivered == e.delivered + Gained(a) && d.published == e.published && d.lates == e.lates
        && (d.point.Between? || d.point.Searching?)
  {
    hide Parse, AttemptMarks;
    ParseShrinks(n1, e.unread);
  }

  /** Search and skipping: nothing happens to the ring, or one octet is read. */
  lemma LookSkips(n1: Octet -> nat, e: Config)
    requires PointOk(e) && (e.point.Searching? || e.point.Skipping?)
    ensures var d := LookAtRing(n1, e);
      && PointOk(d) && (if d.unread == e.unread then d == e.(point := d.point)
         else e.unread != [] && (e.flag ==> e.unread[0] == BASIC_FLAG)
              && d == ReadOne(e, d.point, e.unread[0] == BASIC_FLAG) && !d.point.Counting?)
      && (d.point.Counting? ==> !LatePending(d))
  {}

  lemma MarkedAttempt(n1: Octet -> nat, u: seq<Octet>, m: seq<bool>, x: seq<Octet>, y: seq<bool>)
    requires var a := Parse(n1, u); !a.NeedMore? && |a.rest| < |u| && |m| == |u| - |a.rest| && |y| == |a.rest| + |x|
    requires u[0] == BASIC_FLAG ==> m[0]
    ensures |m + y| == |u + x|
    ensures var a := Parse(n1, u);
      MarkedFrames(n1, true, u + x, m + y) == Gained(a) + MarkedFrames(n1, false, a.rest + x, y)
  {
    ParseStable(n1, u, x);
    hide Parse;
    assert (m + y)[|m|..] == y && (u + x)[0] == u[0] && (m + y)[0] == m[0];
    assert |u + x| - |Parse(n1, u).rest + x| == |m|;
  }

  lemma AttemptPasses(n1: Octet -> nat, e: Config, d: Config)
    requires PointOk(e) && e.point.Counting? && !Parse(n1, e.unread).NeedMore?
    requires var a := Parse(n1, e.unread); |a.rest| < |e.unread| && d.unread == a.rest && !d.flag
    ensures var a := Parse(n1, e.unread);
      Passes(n1, e, d, AttemptMarks(LatePending(e), |e.unread| - |a.rest|), Gained(a))
  {
    hide Parse, PassesFor;
    var u, a := e.unread, Parse(n1, e.unread);
    var m := AttemptMarks(LatePending(e), |u| - |a.rest|);
    assert |m| == |u| - |a.rest| && m[0] == LatePending(e);
    hide AttemptMarks;
    forall x, y
      ensures PassesFor(n1, e, d, m, Gained(a), x, y)
    {
      AttemptPassesFor(n1, e, d, m, x, y);
    }
  }

  lemma AttemptPassesFor(n1: Octet -> nat, e: Config, d: Config, m: seq<bool>, x: seq<Octet>, y: seq<bool>)
    requires e.flag && !d.flag && !Parse(n1, e.unread).NeedMore?
    requires var a := Parse(n1, e.unread); |a.rest| < |e.unread| && d.unread == a.rest && |m| == |e.unread| - |a.rest|
    requires e.unread[0] == BASIC_FLAG ==> m[0]
    ensures PassesFor(n1, e, d, m, Gained(Parse(n1, e.unread)), x, y)
  {
    hide Parse, MarkedFrames, Gained;
    if |y| == |d.unread| + |x| {
      MarkedAttempt(n1, e.unread, m, x, y);
    }
  }

  lemma MarkedLook(n1: Octet -> nat, e: Config)
    requires Accounted(n1, e) && PointOk(e) && !e.point.Between?
    ensures Accounted(n1, LookAtRing(n1, e))
  {
    hide Parse, MarkedFrames, Passes, LookAtRing, Accounted, AttemptMarks, Gained, LatePending;
    var d := LookAtRing(n1, e);
    if e.point.Counting? {
      LookAttempts(n1, e);
      var a := Parse(n1, e.unread);
      if a.NeedMore? {
        SameAccount(n1, e, d);
      } else {
        AttemptPasses(n1, e, d);
        MarkedPasses(n1, e, d, AttemptMarks(LatePending(e), |e.unread| - |a.rest|), Gained(a));
      }
    } else {
      LookSkips(n1, e);
      if d.unread == e.unread {
        SameAccount(n1, e, d);
      } else {
        OnePasses(n1, e, d);
        MarkedPasses(n1, e, d, [false], []);
      }
    }
  }

  /** Reading the octets `u` with the marks `m`. */
  lemma MarksRead(e: Config, d: Config, m: seq<bool>)
    requires MarksOk(e) && 0 < |m| <= |e.unread| && d.unread == e.unread[|m|..] && d.marks == e.marks + m
    requires d.published == e.published && d.lates == e.lates && !LatePending(d)
    requires m[0] ==> LatePending(e)
    requires forall i :: 0 < i < |m| ==> !m[i]
    ensures MarksOk(d)
  {
    var k := |e.marks|;
    assert e.published[k + |m|..] == e.published[k..][|m|..];
    assert e.published[k] == e.published[k..][0];
  }

  lemma MarksLook(n1: Octet -> nat, e: Config)
    requires MarksOk(e) && PointOk(e) && !e.point.Between?
    ensures MarksOk(LookAtRing(n1, e)) && PointOk(LookAtRing(n1, e))
  {
    hide Parse, LookAtRing, MarksOk;
    var d := LookAtRing(n1, e);
    if e.point.Counting? {
      LookAttempts(n1, e);
      var a := Parse(n1, e.unread);
      if a.NeedMore? {
        SameMarks(e, d);
      } else {
        MarksRead(e, d, AttemptMarks(LatePending(e), |e.unread| - |a.rest|));
      }
    } else {
      LookSkips(n1, e);
      if d.unread == e.unread {
        SameMarks(e, d);
      } else {
        MarksRead(e, d, [false]);
      }
    }
  }

  lemma SameMarks(e: Config, d: Config)
    requires MarksOk(e) && d == e.(point := d.point) && !LatePending(d)
    ensures MarksOk(d)
  {}

  lemma StepKeepsMarks(n1: Octet -> nat, e: Config, a: Action)
    requires PointOk(e) && MarksOk(e) && Enabled(e, a)
    ensures MarksOk(Apply(n1, e, a))
  {
    hide Parse, LookAtRing;
    match a {
      case Publish(p) =>
        assert (e.published + p)[|e.marks|..] == e.published[|e.marks|..] + p;
      case Begin =>
      case Step => MarksLook(n1, e);
    }
  }

  lemma StepKeepsAccount(n1: Octet -> nat, e: Config, a: Action)
    requires PointOk(e) && MarksOk(e) && Accounted(n1, e) && Enabled(e, a)
    ensures var d := Apply(n1, e, a); PointOk(d) && MarksOk(d) && Accounted(n1, d)
  {
    hide Parse, MarkedFrames, Accounted, LookAtRing, MarksOk;
    StepKeepsMarks(n1, e, a);
    match a {
      case Publish(p) => MarkedPublish(n1, e, p);
      case Begin => SameAccount(n1, e, Apply(n1, e, a));
      case Step =>
        MarkedLook(n1, e);
        MarksLook(n1, e);
    }
  }

  lemma InitAccount(n1: Octet -> nat, e: Config)
    requires Init(e)
    ensures PointOk(e) && MarksOk(e) && Accounted(n1, e)
  {
    hide Parse;
    forall x, y
      ensures AccountedFor(n1, e, x, y)
    {
      assert [] + y == y;
    }
  }

  lemma {:induction false} RunKeepsAccount(n1: Octet -> nat, e: Config, trace: seq<Action>)
    requires PointOk(e) && MarksOk(e) && Accounted(n1, e) && Runs(n1, e, trace)
    ensures var d := Run(n1, e, trace); PointOk(d) && MarksOk(d) && Accounted(n1, d)
    decreases |trace|
  {
    hide PointOk, MarksOk, Accounted, Enabled, Apply;
    if trace != [] {
      StepKeepsAccount(n1, e, trace[0]);
      RunKeepsAccount(n1, Apply(n1, e, trace[0]), trace[1..]);
    }
  }

  /**
   The account of every interleaving over every stream: what is delivered, and will be of what is unread, is the run
   over all octets published in which attempts begin at the marked flags as well. Only flags are marked, and without
   a mark it is the plain run.
   */
  lemma InterleavingAccount(n1: Octet -> nat, e0: Config, trace: seq<Action>)
    requires Init(e0) && Runs(n1, e0, trace)
    ensures var e := Run(n1, e0, trace);
      var marks := e.marks + Unmarked(|e.unread|);
      && |marks| == |e.published|
      && e.delivered + RunFrames(n1, e.flag, e.unread) == MarkedFrames(n1, false, e.published, marks)
      && (forall i :: 0 <= i < |marks| && marks[i] ==> e.published[i] == BASIC_FLAG)
      && (e.lates == 0 ==> true !in marks)
      && (true !in marks ==> MarkedFrames(n1, false, e.published, marks) == RunFrames(n1, false, e.published))
  {
    InitAccount(n1, e0);
    RunKeepsAccount(n1, e0, trace);
    hide Parse, MarkedFrames, RunFrames;
    var e := Run(n1, e0, trace);
    var y := Unmarked(|e.unread|);
    var none: seq<Octet> := [];
    assert e.published + none == e.published && e.unread + none == e.unread && |y| == |e.unread| + |none|;
    assert AccountedFor(n1, e, none, y);
    UnmarkedIsRun(n1, e.flag, e.unread, y);
    if true !in e.marks + y {
      UnmarkedIsRun(n1, false, e.published, e.marks + y);
    }
  }

  // ----- The window is the one place where an arrival shows -----

  function Rank(p: Point): nat {
    match p
    case Between => 0
    case Counting => 1
    case Skipping => 2
    case Searching => 3
  }

  lemma LookMovesOn(n1: Octet -> nat, e: Config)
    requires !e.point.Between?
    ensures var d := LookAtRing(n1, e);
      |d.unread| < |e.unread| || (d.unread == e.unread && Rank(d.point) < Rank(e.point))
  {
    hide Parse;
    ParseShrinks(n1, e.unread);
  }

  /** The call goes on, with nothing more published, until it returns. */
  function Finish(n1: Octet -> nat, e: Config): Config
    decreases |e.unread|, Rank(e.point)
  {
    if e.point.Between? then e
    else
      LookMovesOn(n1, e);
      Finish(n1, LookAtRing(n1, e))
  }

  function Call(n1: Octet -> nat, e: Config): Config {
    Finish(n1, if e.point.Between? then e.(point := if e.flag then Skipping else Searching, depth := 0) else e)
  }

  lemma {:induction false} FinishKeeps(n1: Octet -> nat, e: Config)
    requires PointOk(e) && !LatePending(e)
    ensures var d := Finish(n1, e); d.point.Between? && Same(n1, e, d)
    decreases |e.unread|, Rank(e.point)
  {
    hide Parse, LookAtRing, RunFrames, RunEnd, PointOk, LatePending;
    if !e.point.Between? {
      LookMovesOn(n1, e);
      LookKeeps(n1, e);
      FinishKeeps(n1, LookAtRing(n1, e));
    }
  }

  lemma SameOn(n1: Octet -> nat, e: Config, d: Config, x: seq<Octet>)
    requires Same(n1, e, d)
    ensures d.delivered + RunFrames(n1, d.flag, d.unread + x) == e.delivered + RunFrames(n1, e.flag, e.unread + x)
  {
    hide RunFrames, RunEnd;
    RunAppend(n1, d.flag, d.unread, x);
    RunAppend(n1, e.flag, e.unread, x);
    var t := RunEnd(n1, e.flag, e.unread);
    var z := RunFrames(n1, t.flag, t.rest + x);
    JoinThree(d.delivered, RunFrames(n1, d.flag, d.unread), z);
    JoinThree(e.delivered, RunFrames(n1, e.flag, e.unread), z);
    assert d.delivered + RunFrames(n1, d.flag, d.unread + x) == e.delivered + RunFrames(n1, e.flag, e.unread + x);
  }

  predicate CameTo(e: Config, d: Config, r: BasicSpec.Call) {
    && d.unread == r.rest && d.asserted == (e.asserted || r.Asserted?)
    && (r.Asserted? ==> d.delivered == e.delivered)
    && (r.Returned? ==> d.flag == r.flag && d.delivered == e.delivered + if r.frame.Some? then [r.frame.value] else [])
  }

  lemma CallsAlike(n1: Octet -> nat, flag: bool, c: seq<Octet>, flag': bool, c': seq<Octet>, depth: nat, dropped: nat)
    requires Try(n1, flag, c) == Try(n1, flag', c') && depth < MAX_RESYNC_GET_FRAME_COUNT
    ensures GetFrame(n1, flag, c, depth, dropped) == GetFrame(n1, flag', c', depth, dropped)
  {
    hide Try;
  }

  /** One look leaves the call what it was, or is its end. */
  predicate GoesOn(n1: Octet -> nat, e: Config, d: Config, dropped: nat)
    requires e.depth < MAX_RESYNC_GET_FRAME_COUNT
  {
    if d.point.Between? then CameTo(e, d, GetFrame(n1, e.flag, e.unread, e.depth, dropped))
    else
      && PointOk(d) && !LatePending(d) && e.depth <= d.depth < MAX_RESYNC_GET_FRAME_COUNT
      && d.delivered == e.delivered && d.asserted == e.asserted
      && GetFrame(n1, d.flag, d.unread, d.depth, dropped + (d.depth - e.depth))
         == GetFrame(n1, e.flag, e.unread, e.depth, dropped)
  }

  lemma CallByAttempt(n1: Octet -> nat, flag: bool, c: seq<Octet>, depth: nat, dropped: nat)
    requires depth < MAX_RESYNC_GET_FRAME_COUNT
    ensures GetFrame(n1, flag, c, depth, dropped)
            == match Try(n1, flag, c)
               case NeedMore(f, rest) => Returned(None, f, rest, dropped)
               case Got(frame, rest) => Returned(Some(frame), false, rest, dropped)
               case Drop(rest) => GetFrame(n1, false, rest, depth + 1, dropped + 1)
  {
    hide Try;
  }

  lemma NoMoreCalls(n1: Octet -> nat, c: seq<Octet>, depth: nat, dropped: nat)
    requires depth >= MAX_RESYNC_GET_FRAME_COUNT
    ensures GetFrame(n1, false, c, depth, dropped) == Asserted(c, dropped)
  {}

  lemma AttemptGoesOn(n1: Octet -> nat, e: Config, d: Config, dropped: nat)
    requires PointOk(e) && !LatePending(e) && e.point.Counting? && e.depth < MAX_RESYNC_GET_FRAME_COUNT
    requires d == LookAtRing(n1, e)
    ensures GoesOn(n1, e, d, dropped)
  {
    hide Parse, Try, GetFrame, AttemptMarks;
    ParseIsTry(n1, e.unread);
    ParseShrinks(n1, e.unread);
    CallByAttempt(n1, e.flag, e.unread, e.depth, dropped);
    match Parse(n1, e.unread)
    case NeedMore(_, _) => assert d == e.(point := Between) && e.delivered + [] == e.delivered;
    case Got(f, rest) => assert d.unread == rest && !d.flag && d.delivered == e.delivered + [f];
    case Drop(rest) =>
      assert d.unread == rest && !d.flag && d.depth == e.depth + 1 && dropped + (d.depth - e.depth) == dropped + 1;
      if d.point.Between? {
        NoMoreCalls(n1, rest, d.depth, dropped + 1);
      }
  }

  lemma EmptySearch(n1: Octet -> nat, depth: nat, dropped: nat)
    requires depth < MAX_RESYNC_GET_FRAME_COUNT
    ensures GetFrame(n1, false, [], depth, dropped) == Returned(None, false, [], dropped)
  {
    hide Parse, Try;
    NothingSought(n1);
  }

  /** The ring is found empty in the search, and the call returns. */
  lemma SearchEnds(n1: Octet -> nat, e: Config, d: Config, dropped: nat)
    requires !e.flag && e.unread == [] && e.depth < MAX_RESYNC_GET_FRAME_COUNT && d == e.(point := Between)
    ensures GoesOn(n1, e, d, dropped)
  {
    EmptySearch(n1, e.depth, dropped);
    hide GetFrame;
    var r := GetFrame(n1, e.flag, e.unread, e.depth, dropped);
    assert r == Returned(None, false, [], dropped) && e.delivered + [] == e.delivered;
    assert CameTo(e, d, r);
  }

  lemma ReadGoesOn(n1: Octet -> nat, e: Config, d: Config, dropped: nat)
    requires e.depth < MAX_RESYNC_GET_FRAME_COUNT && e.unread != [] && (e.flag ==> e.unread[0] == BASIC_FLAG)
    requires d == ReadOne(e, d.point, e.unread[0] == BASIC_FLAG) && PointOk(d) && (d.point.Searching? || d.point.Skipping?)
    ensures GoesOn(n1, e, d, dropped)
  {
    hide Parse, Try, GetFrame;
    SearchOn(n1, e.unread);
    CallsAlike(n1, e.flag, e.unread, d.flag, d.unread, e.depth, dropped);
    assert dropped + (d.depth - e.depth) == dropped;
  }

  lemma SkipGoesOn(n1: Octet -> nat, e: Config, d: Config, dropped: nat)
    requires PointOk(e) && (e.point.Searching? || e.point.Skipping?) && e.depth < MAX_RESYNC_GET_FRAME_COUNT
    requires d == LookAtRing(n1, e)
    ensures GoesOn(n1, e, d, dropped)
  {
    hide Parse, GetFrame;
    LookSkips(n1, e);
    if d.unread != e.unread {
      ReadGoesOn(n1, e, d, dropped);
    } else if e.point.Searching? {
      SearchEnds(n1, e, d, dropped);
    } else {
      assert dropped + (d.depth - e.depth) == dropped;
    }
  }

  lemma {:induction false} FinishIsGetFrame(n1: Octet -> nat, e: Config, dropped: nat)
    requires PointOk(e) && !LatePending(e) && !e.point.Between? && e.depth < MAX_RESYNC_GET_FRAME_COUNT
    ensures CameTo(e, Finish(n1, e), GetFrame(n1, e.flag, e.unread, e.depth, dropped))
    decreases |e.unread|, Rank(e.point)
  {
    hide Parse, Try, LookAtRing, GetFrame, LatePending, PointOk;
    var d := LookAtRing(n1, e);
    LookMovesOn(n1, e);
    if e.point.Counting? {
      AttemptGoesOn(n1, e, d, dropped);
    } else {
      SkipGoesOn(n1, e, d, dropped);
    }
    if !d.point.Between? {
      FinishIsGetFrame(n1, d, dropped + (d.depth - e.depth));
    }
  }

  lemma NothingSought(n1: Octet -> nat)
    ensures Try(n1, false, []) == NeedMore(false, [])
  {}

  /** A call by itself is the specified call, and so that of the code. */
  lemma CallIsGetFrame(n1: Octet -> nat, e: Config)
    requires e.point.Between?
    ensures CameTo(e, Call(n1, e), GetFrame(n1, e.flag, e.unread, 0, 0))
  {
    hide Finish, GetFrame;
    FinishIsGetFrame(n1, e.(point := if e.flag then Skipping else Searching, depth := 0), 0);
  }

  /** With `p` published and the call finished, the octets `x` deliver something else than behind `p` in one run. */
  predicate Shows(n1: Octet -> nat, e: Config, p: seq<Octet>, x: seq<Octet>) {
    var d := Call(n1, e.(unread := e.unread + p));
    d.delivered + RunFrames(n1, d.flag, d.unread + x) != e.delivered + RunFrames(n1, e.flag, e.unread + p + x)
  }

  lemma ElsewhereInvisible(n1: Octet -> nat, e: Config, p: seq<Octet>, x: seq<Octet>)
    requires PointOk(e) && e.unread == [] && (!Window(e) || p == [] || p[0] != BASIC_FLAG)
    ensures !Shows(n1, e, p, x)
  {
    hide RunFrames, RunEnd, Finish;
    var e' := e.(unread := e.unread + p);
    assert e'.unread == p && e.unread + p + x == p + x;
    var b := if e'.point.Between? then e'.(point := if e'.flag then Skipping else Searching, depth := 0) else e';
    FinishKeeps(n1, b);
    SameOn(n1, b, Finish(n1, b), x);
  }

  /** A frame on channel 1 or 2 whose check octet is not a flag. */
  lemma SomeFrame(n1: Octet -> nat) returns (f: Frame)
    ensures Sendable(n1, f) && f.data == [] && f.control == 0x01 && Fcs.FrameFcs(Header(f.channel, f.control, 0)) != BASIC_FLAG
  {
    hide Fcs.FrameFcs, Fcs.Accepts;
    var a, b := Header(1, 0x01, 0), Header(2, 0x01, 0);
    assert !FrameIs(TYPE_UI, 0x01);
    Fcs.ResidueAcceptsOnlyFrameFcs(a, BASIC_FLAG);
    Fcs.ResidueAcceptsOnlyFrameFcs(b, BASIC_FLAG);
    if Fcs.FrameFcs(a) == BASIC_FLAG == Fcs.FrameFcs(b) {
      TwoChannels(a, b);
    }
    f := Frame(if Fcs.FrameFcs(a) != BASIC_FLAG then 1 else 2, 0x01, []);
  }

  lemma TwoChannels(a: seq<Octet>, b: seq<Octet>)
    requires a == Header(1, 0x01, 0) && b == Header(2, 0x01, 0)
    ensures !Fcs.Accepts(a + [BASIC_FLAG]) || !Fcs.Accepts(b + [BASIC_FLAG])
  {
    hide Fcs.Accepts;
    var rest := [0x01] + LengthField(0) + [BASIC_FLAG];
    assert a + [BASIC_FLAG] == [] + [Address(1)] + rest && b + [BASIC_FLAG] == [] + [Address(2)] + rest;
    assert Address(1) != Address(2);
    hide LengthField, Address;
    if Fcs.Accepts(a + [BASIC_FLAG]) {
      Fcs.OneOctetErrorDetected([], Address(1), Address(2), rest);
    }
  }

  /** Parsed with its start flag in the place of the address, the frame is dropped but for its last two octets. */
  lemma LateFlagDrops(n1: Octet -> nat, f: Frame)
    requires f.data == [] && f.control == 0x01 && Fcs.FrameFcs(Header(f.channel, f.control, 0)) != BASIC_FLAG
    ensures Parse(n1, Encode(f)) == Drop([Fcs.FrameFcs(Header(f.channel, f.control, 0)), BASIC_FLAG])
  {
    hide Fcs.FrameFcs, Fcs.Accepts, Address, DecodeAddress;
    var c := Encode(f);
    NoLength();
    assert c == [BASIC_FLAG, Address(f.channel), 0x01, 0x01, Fcs.FrameFcs(Header(f.channel, f.control, 0)), BASIC_FLAG];
    LengthOne();
  }

  lemma NoLength()
    ensures LengthField(0) == [0x01]
  {}

  lemma LengthOne()
    ensures SizeOf(0x01) == 3 && forall high :: LengthOf(0x01, high) == 0
  {}

  lemma FlagBehindOctet(n1: Octet -> nat, b: Octet)
    requires b != BASIC_FLAG
    ensures RunFrames(n1, false, [b, BASIC_FLAG]) == []
  {
    hide Parse;
    NothingParses(n1);
    assert [b, BASIC_FLAG][1..] == [BASIC_FLAG] && [BASIC_FLAG][1..] == [];
    assert FindFlag([b, BASIC_FLAG]) == FindFlag([BASIC_FLAG]) == Some([]);
    assert SkipFlags([]) == [];
  }

  lemma WindowShows(n1: Octet -> nat, e: Config)
    requires PointOk(e) && Window(e)
    ensures exists p :: Shows(n1, e, p, [])
  {
    hide RunFrames, RunEnd, Finish, Parse, FcsAgrees, Encode, Fcs.FrameFcs;
    var f := SomeFrame(n1);
    var p, e' := Encode(f), e.(unread := Encode(f));
    assert [] + p == p && p + [] == p;
    LateFlagDrops(n1, f);
    var d := LookAtRing(n1, e');
    assert Finish(n1, e') == Finish(n1, d) by { FinishNext(n1, e'); }
    FinishKeeps(n1, d);
    SameOn(n1, d, Finish(n1, d), []);
    FlagBehindOctet(n1, Fcs.FrameFcs(Header(f.channel, f.control, 0)));
    assert d.unread + [] == d.unread;
    OneFrame(n1, f);
    assert Shows(n1, e, p, []);
  }

  lemma FinishNext(n1: Octet -> nat, e: Config)
    requires !e.point.Between?
    ensures Finish(n1, e) == Finish(n1, LookAtRing(n1, e))
  {}

  lemma OneFrame(n1: Octet -> nat, f: Frame)
    requires Sendable(n1, f)
    ensures RunFrames(n1, true, Encode(f)) == [f]
  {
    hide Try, Encode, FcsAgrees;
    FrameStep(n1, true, f, []);
    assert Encode(f) + [] == Encode(f);
    TryShrinks(n1, true, Encode(f));
    NothingIsRun(n1);
  }

  lemma NothingIsRun(n1: Octet -> nat)
    ensures RunFrames(n1, false, []) == []
  {}

  /**
   On an empty ring, wherever the assembler stands: whatever is published next and whatever follows, delivery is
   that of one run exactly if this is not the window.
   */
  lemma ArrivalsAreInvisibleIff(n1: Octet -> nat, e: Config)
    requires PointOk(e) && e.unread == []
    ensures (forall p, x :: !Shows(n1, e, p, x)) <==> !Window(e)
  {
    hide Shows;
    if Window(e) {
      WindowShows(n1, e);
    } else {
      forall p, x
        ensures !Shows(n1, e, p, x)
      {
        ElsewhereInvisible(n1, e, p, x);
      }
    }
  }
}
