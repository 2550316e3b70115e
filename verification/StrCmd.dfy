/** SET and its option parser, node/strcmd.go. */
module StrCmd {
  import opened Util
  import Dict
  import DictCalls
  import DictRefinement
  import opened Keyspace
  import KeyspaceRuns

  datatype Opt = NX | XX | GET | KEEPTTL | PERSIST | EX | PX | EXAT | PXAT

  datatype CommandType = CommandSet | CommandGet

  /** What parseExtendedStringArgumentsOrReply returns, and whether it has replied with a syntax error. */
  datatype Options = Options(flags: set<Opt>, expire: Option<Obj>, millis: bool, ok: bool, replied: bool)

  // ---------------------------------------------------------------- words

  function UpperChar(c: char): char {
    if 'a' <= c <= 'z' then c - 'a' + 'A' else c
  }

  function Upper(s: string): string {
    if s == "" then "" else [UpperChar(s[0])] + Upper(s[1..])
  }

  function Word(s: string): Option<Opt> {
    var u := Upper(s);
    if u == "NX" then Some(NX) else if u == "XX" then Some(XX) else if u == "GET" then Some(GET)
    else if u == "KEEPTTL" then Some(KEEPTTL) else if u == "PERSIST" then Some(PERSIST)
    else if u == "EX" then Some(EX) else if u == "PX" then Some(PX)
    else if u == "EXAT" then Some(EXAT) else if u == "PXAT" then Some(PXAT) else None
  }

  /** Options that take the argument after them. */
  predicate Timed(o: Opt) { o == EX || o == PX || o == EXAT || o == PXAT }

  predicate Allowed(o: Opt, cmd: CommandType) {
    match o
    case NX => cmd.CommandSet?
    case XX => cmd.CommandSet?
    case GET => cmd.CommandSet?
    case KEEPTTL => cmd.CommandSet?
    case PERSIST => cmd.CommandGet?
    case _ => true
  }

  /** The flag tests of the option's branch, as the source lists them. */
  predicate BranchOpen(o: Opt, flags: set<Opt>) {
    match o
    case NX => XX !in flags
    case XX => NX !in flags
    case GET => true
    case KEEPTTL => PERSIST !in flags && EX !in flags && EXAT !in flags && PX !in flags && PXAT !in flags
    case PERSIST => EX !in flags && EXAT !in flags && PX !in flags && PXAT !in flags && KEEPTTL !in flags
    case EX => KEEPTTL !in flags && PERSIST !in flags && EXAT !in flags && PXAT !in flags && PX !in flags
    case PX => KEEPTTL !in flags && PERSIST !in flags && EX !in flags && EXAT !in flags && PXAT !in flags
    case EXAT => KEEPTTL !in flags && PERSIST !in flags && EX !in flags && PXAT !in flags && PX !in flags
    case PXAT => KEEPTTL !in flags && PERSIST !in flags && EX !in flags && EXAT !in flags && PX !in flags
  }

  /** s is the word w, which is in capitals, in any mixture of cases. */
  predicate Spells(s: string, w: string) {
    |s| == |w| && forall i :: 0 <= i < |s| ==> s[i] == w[i] || ('a' <= s[i] <= 'z' && s[i] as int == w[i] as int + 32)
  }

  predicate Capitals(w: string) { forall i :: 0 <= i < |w| ==> 'A' <= w[i] <= 'Z' }

  lemma {:induction false} UpperIsSpelling(s: string, w: string)
    requires Capitals(w)
    ensures Upper(s) == w <==> Spells(s, w)
  {
    if s != "" && w != "" {
      UpperIsSpelling(s[1..], w[1..]);
      assert Upper(s)[1..] == Upper(s[1..]);
      assert w == [w[0]] + w[1..] && Upper(s) == [UpperChar(s[0])] + Upper(s[1..]);
      assert forall i :: 0 < i < |s| ==> s[i] == s[1..][i - 1];
      assert forall i :: 0 < i < |w| ==> w[i] == w[1..][i - 1];
    }
  }

  // ---------------------------------------------------------------- the loop

  /** The loop from the arguments not yet read on. */
  function Parse(args: seq<Obj>, cmd: CommandType, flags: set<Opt>, expire: Option<Obj>, millis: bool): Options
    decreases |args|
  {
    if args == [] then Options(flags, expire, millis, true, false)
    else if !args[0].value.Str? then Options(flags, expire, millis, false, true)
    else
      match Word(args[0].value.s)
      case None => Options(flags, expire, millis, true, true)
      case Some(o) =>
        if !Allowed(o, cmd) || !BranchOpen(o, flags) || (Timed(o) && |args| == 1) then
          Options(flags, expire, millis, true, true)
        else if Timed(o) then Parse(args[2..], cmd, flags + {o}, Some(args[1]), millis || o == PX || o == PXAT)
        else Parse(args[1..], cmd, flags + {o}, expire, millis)
  }

  lemma SpelledOut(s: string)
    ensures (Word(s) == Some(NX) <==> Spells(s, "NX")) && (Word(s) == Some(XX) <==> Spells(s, "XX"))
    ensures (Word(s) == Some(GET) <==> Spells(s, "GET")) && (Word(s) == Some(KEEPTTL) <==> Spells(s, "KEEPTTL"))
    ensures (Word(s) == Some(EX) <==> Spells(s, "EX")) && (Word(s) == Some(PX) <==> Spells(s, "PX"))
    ensures (Word(s) == Some(EXAT) <==> Spells(s, "EXAT")) && (Word(s) == Some(PXAT) <==> Spells(s, "PXAT"))
    ensures Word(s) == Some(PERSIST) <==> Spells(s, "PERSIST")
  {
    UpperIsSpelling(s, "NX");
    UpperIsSpelling(s, "XX");
    UpperIsSpelling(s, "GET");
    UpperIsSpelling(s, "KEEPTTL");
    UpperIsSpelling(s, "PERSIST");
    UpperIsSpelling(s, "EX");
    UpperIsSpelling(s, "PX");
    UpperIsSpelling(s, "EXAT");
    UpperIsSpelling(s, "PXAT");
  }

  lemma OneOption(o: Obj, cmd: CommandType)
    requires o.value.Str?
    ensures var w := Word(o.value.s);
      Parse([o], cmd, {}, None, false) ==
      if w == None || !Allowed(w.value, cmd) || Timed(w.value) then Options({}, None, false, true, true)
      else Options({w.value}, None, false, true, false)
  {
    assert [o][1..] == [];
  }

  /** The options that stand alone, by the command that takes them; no other word can. */
  lemma PlainOptions(s: string, enc: Encoding, lru: int)
    ensures var r := Parse([Obj(Str(s), enc, lru)], CommandSet, {}, None, false);
      && (Spells(s, "NX") ==> r == Options({NX}, None, false, true, false))
      && (Spells(s, "XX") ==> r == Options({XX}, None, false, true, false))
      && (Spells(s, "GET") ==> r == Options({GET}, None, false, true, false))
      && (Spells(s, "KEEPTTL") ==> r == Options({KEEPTTL}, None, false, true, false))
      && (!r.replied <==> Spells(s, "NX") || Spells(s, "XX") || Spells(s, "GET") || Spells(s, "KEEPTTL"))
    ensures var r := Parse([Obj(Str(s), enc, lru)], CommandGet, {}, None, false);
      && (Spells(s, "PERSIST") ==> r == Options({PERSIST}, None, false, true, false))
      && (!r.replied <==> Spells(s, "PERSIST"))
  {
    SpelledOut(s);
    OneOption(Obj(Str(s), enc, lru), CommandSet);
    OneOption(Obj(Str(s), enc, lru), CommandGet);
  }

  /** The options that take the argument after them, for both commands, and the unit they stand for. */
  lemma TimedOptions(s: string, enc: Encoding, lru: int, arg: Obj, cmd: CommandType)
    ensures var r := Parse([Obj(Str(s), enc, lru), arg], cmd, {}, None, false);
      && (Spells(s, "EX") ==> r == Options({EX}, Some(arg), false, true, false))
      && (Spells(s, "PX") ==> r == Options({PX}, Some(arg), true, true, false))
      && (Spells(s, "EXAT") ==> r == Options({EXAT}, Some(arg), false, true, false))
      && (Spells(s, "PXAT") ==> r == Options({PXAT}, Some(arg), true, true, false))
  {
    SpelledOut(s);
    assert [Obj(Str(s), enc, lru), arg][2..] == [];
  }

  method ParseExtendedStringArgumentsOrReply(argv: seq<Obj>, flags0: set<Opt>, cmd: CommandType) returns (r: Options)
    requires |argv| >= if cmd.CommandGet? then 2 else 3
    ensures r == Parse(argv[if cmd.CommandGet? then 2 else 3..], cmd, flags0, None, false)
  {
    var j := if cmd.CommandGet? then 2 else 3;
    var flags, expire: Option<Obj>, millis := flags0, None, false;
    ghost var goal := Parse(argv[j..], cmd, flags, expire, millis);
    while j < |argv|
      invariant j <= |argv| && goal == Parse(argv[j..], cmd, flags, expire, millis)
    {
      var opt := argv[j].value;
      if !opt.Str? {
        return Options(flags, expire, millis, false, true);
      }
      var hasNext := j != |argv| - 1;
      var word := Word(opt.s);
      assert argv[j..][1..] == argv[j + 1..] && (hasNext ==> argv[j..][2..] == argv[j + 2..]);
      if word.Some? && Allowed(word.value, cmd) && BranchOpen(word.value, flags) && (Timed(word.value) ==> hasNext) {
        flags := flags + {word.value};
        if Timed(word.value) {
          millis := millis || word.value == PX || word.value == PXAT;
          expire := Some(argv[j + 1]);
          j := j + 1;
        }
      } else {
        return Options(flags, expire, millis, true, true);
      }
      j := j + 1;
    }
    return Options(flags, expire, millis, true, false);
  }

  // ---------------------------------------------------------------- the grammar

  /** An option with the argument it takes, if it takes one. */
  datatype Group = Group(opt: Opt, arg: Option<Obj>)

  /** The arguments cut into option groups, as long as each is an option word with its argument. */
  function Groups(args: seq<Obj>, cmd: CommandType): Option<seq<Group>>
    decreases |args|
  {
    if args == [] then Some([])
    else if !args[0].value.Str? || Word(args[0].value.s) == None || !Allowed(Word(args[0].value.s).value, cmd) then None
    else
      var o := Word(args[0].value.s).value;
      if Timed(o) then
        if |args| == 1 then None
        else match Groups(args[2..], cmd) case None => None case Some(gs) => Some([Group(o, Some(args[1]))] + gs)
      else match Groups(args[1..], cmd) case None => None case Some(gs) => Some([Group(o, None)] + gs)
  }

  /** The options that say something about the time to live: at most one kind of them may occur. */
  predicate AboutTTL(o: Opt) { o == KEEPTTL || o == PERSIST || Timed(o) }

  predicate Compatible(a: Opt, b: Opt) {
    !(a == NX && b == XX) && !(a == XX && b == NX) && (AboutTTL(a) && AboutTTL(b) ==> a == b)
  }

  predicate PairwiseCompatible(gs: seq<Group>) {
    forall i, j :: 0 <= i < j < |gs| ==> Compatible(gs[i].opt, gs[j].opt)
  }

  function Kinds(gs: seq<Group>): set<Opt> {
    set g | g in gs :: g.opt
  }

  function LastTimed(gs: seq<Group>): Option<Obj> {
    if gs == [] then None
    else if Timed(gs[|gs| - 1].opt) then gs[|gs| - 1].arg else LastTimed(gs[..|gs| - 1])
  }

  predicate Accepted(r: Options) { r.ok && !r.replied }

  lemma BranchIsCompatibility(o: Opt, flags: set<Opt>)
    ensures BranchOpen(o, flags) <==> forall f :: f in flags ==> Compatible(f, o)
  {
  }

  lemma {:induction false} LastTimedFirst(g: Group, gs: seq<Group>)
    ensures LastTimed([g] + gs) ==
            if exists h :: h in gs && Timed(h.opt) then LastTimed(gs) else if Timed(g.opt) then g.arg else None
    ensures !(exists h :: h in gs && Timed(h.opt)) ==> LastTimed(gs) == None
    decreases |gs|
  {
    if gs == [] {
      assert [g] + gs == [g];
    } else {
      var l, front := gs[|gs| - 1], gs[..|gs| - 1];
      assert gs == front + [l] && ([g] + gs)[..|gs|] == [g] + front;
      LastTimedFirst(g, front);
    }
  }

  lemma PairwiseFirst(g: Group, gs: seq<Group>)
    ensures PairwiseCompatible([g] + gs) <==> PairwiseCompatible(gs) && forall h :: h in gs ==> Compatible(g.opt, h.opt)
  {
    var all := [g] + gs;
    assert forall i :: 0 < i < |all| ==> all[i] == gs[i - 1];
    if PairwiseCompatible(all) {
      forall i | 0 <= i < |gs|
        ensures Compatible(g.opt, gs[i].opt)
        ensures forall j :: i < j < |gs| ==> Compatible(gs[i].opt, gs[j].opt)
      {
        assert all[0] == g && all[i + 1] == gs[i];
        assert forall j :: i < j < |gs| ==> all[j + 1] == gs[j];
      }
    }
  }

  ghost predicate CompatibleWith(flags: set<Opt>, gs: seq<Group>) {
    forall f, g :: f in flags && g in gs ==> Compatible(f, g.opt)
  }

  /** What the loop makes of the arguments when it has `flags` already. */
  ghost predicate Reads(r: Options, gs: seq<Group>, flags: set<Opt>, expire: Option<Obj>, millis: bool) {
    && r.flags == flags + Kinds(gs)
    && r.expire == (if exists g :: g in gs && Timed(g.opt) then LastTimed(gs) else expire)
    && (r.millis <==> millis || PX in Kinds(gs) || PXAT in Kinds(gs))
  }

  lemma {:induction false} ParseReads(args: seq<Obj>, cmd: CommandType, flags: set<Opt>, expire: Option<Obj>, millis: bool)
    ensures var r, gs := Parse(args, cmd, flags, expire, millis), Groups(args, cmd);
      && (Accepted(r) <==> gs.Some? && PairwiseCompatible(gs.value) && CompatibleWith(flags, gs.value))
      && (Accepted(r) ==> Reads(r, gs.value, flags, expire, millis))
    decreases |args|
  {
    if args != [] && args[0].value.Str? && Word(args[0].value.s).Some? && Allowed(Word(args[0].value.s).value, cmd) {
      var o := Word(args[0].value.s).value;
      BranchIsCompatibility(o, flags);
      if !Timed(o) || |args| > 1 {
        var more := if Timed(o) then args[2..] else args[1..];
        var expire' := if Timed(o) then Some(args[1]) else expire;
        var millis' := millis || o == PX || o == PXAT;
        ParseReads(more, cmd, flags + {o}, expire', millis');
        if Groups(more, cmd).Some? {
          var g, gs := Group(o, if Timed(o) then Some(args[1]) else None), Groups(more, cmd).value;
          var r := Parse(more, cmd, flags + {o}, expire', millis');
          OneGroupMore(g, gs, flags);
          assert Groups(args, cmd) == Some([g] + gs);
          if BranchOpen(o, flags) && Accepted(r) {
            assert Parse(args, cmd, flags, expire, millis) == r;
            ReadsOneMore(r, g, gs, flags, expire, millis);
          }
        }
      }
    }
  }

  lemma OneGroupMore(g: Group, gs: seq<Group>, flags: set<Opt>)
    ensures PairwiseCompatible([g] + gs) && CompatibleWith(flags, [g] + gs) <==>
            PairwiseCompatible(gs) && CompatibleWith(flags + {g.opt}, gs) && forall f :: f in flags ==> Compatible(f, g.opt)
  {
    PairwiseFirst(g, gs);
    assert g in [g] + gs && forall h :: h in [g] + gs <==> h == g || h in gs;
  }

  lemma ReadsOneMore(r: Options, g: Group, gs: seq<Group>, flags: set<Opt>, expire: Option<Obj>, millis: bool)
    requires Timed(g.opt) <==> g.arg.Some?
    requires Reads(r, gs, flags + {g.opt}, if Timed(g.opt) then g.arg else expire, millis || g.opt == PX || g.opt == PXAT)
    ensures Reads(r, [g] + gs, flags, expire, millis)
  {
    LastTimedFirst(g, gs);
    assert g in [g] + gs && forall h :: h in [g] + gs <==> h == g || h in gs;
    assert Kinds([g] + gs) == {g.opt} + Kinds(gs);
  }

  /** Compatibility of a list of groups is a matter of the kinds in it, not of their order. */
  lemma PairwiseByKinds(gs: seq<Group>)
    ensures PairwiseCompatible(gs) <==> forall a, b :: a in Kinds(gs) && b in Kinds(gs) ==> Compatible(a, b)
  {
    if PairwiseCompatible(gs) {
      forall a, b | a in Kinds(gs) && b in Kinds(gs)
        ensures Compatible(a, b)
      {
        var i :| 0 <= i < |gs| && gs[i].opt == a;
        var j :| 0 <= j < |gs| && gs[j].opt == b;
      }
    } else {
      var i, j :| 0 <= i < j < |gs| && !Compatible(gs[i].opt, gs[j].opt);
      assert gs[i] in gs && gs[j] in gs;
    }
  }

  /** An option list is accepted exactly when it splits into known groups that are pairwise compatible. On
      success the flags are the kinds that occur, NX and XX exclude each other, at most one option about the
      time to live occurs, an expire argument is returned iff a timed option is there, and the unit is
      milliseconds iff PX or PXAT is. */
  lemma ParseExact(args: seq<Obj>, cmd: CommandType)
    ensures var r, gs := Parse(args, cmd, {}, None, false), Groups(args, cmd);
      && (Accepted(r) <==> gs.Some? && PairwiseCompatible(gs.value))
      && (Accepted(r) ==>
            && r.flags == Kinds(gs.value) && r.expire == LastTimed(gs.value)
            && !(NX in r.flags && XX in r.flags)
            && (forall a, b :: a in r.flags && b in r.flags && AboutTTL(a) && AboutTTL(b) ==> a == b)
            && (r.expire.Some? <==> EX in r.flags || PX in r.flags || EXAT in r.flags || PXAT in r.flags)
            && (r.millis <==> PX in r.flags || PXAT in r.flags))
  {
    ParseReads(args, cmd, {}, None, false);
    if Accepted(Parse(args, cmd, {}, None, false)) {
      var gs := Groups(args, cmd).value;
      PairwiseByKinds(gs);
      TimedHasArg(args, cmd);
      ExpireOf(gs);
    }
  }

  lemma ExpireOf(gs: seq<Group>)
    requires forall g :: g in gs ==> (Timed(g.opt) <==> g.arg.Some?)
    ensures LastTimed(gs).Some? <==> exists g :: g in gs && Timed(g.opt)
    ensures LastTimed(gs).Some? <==> EX in Kinds(gs) || PX in Kinds(gs) || EXAT in Kinds(gs) || PXAT in Kinds(gs)
  {
    if exists g :: g in gs && Timed(g.opt) {
      LastTimedIs(gs);
    } else {
      NoLastTimed(gs);
      assert forall o :: o in Kinds(gs) ==> !Timed(o);
    }
  }

  lemma {:induction false} TimedHasArg(args: seq<Obj>, cmd: CommandType)
    ensures Groups(args, cmd).Some? ==> forall g :: g in Groups(args, cmd).value ==> (Timed(g.opt) <==> g.arg.Some?)
    decreases |args|
  {
    if args != [] && Groups(args, cmd).Some? {
      TimedHasArg(if Timed(Word(args[0].value.s).value) then args[2..] else args[1..], cmd);
    }
  }

  lemma {:induction false} LastTimedIs(gs: seq<Group>)
    requires (forall g :: g in gs ==> (Timed(g.opt) <==> g.arg.Some?)) && exists g :: g in gs && Timed(g.opt)
    ensures LastTimed(gs).Some? && exists g :: g in gs && Timed(g.opt) && g.opt in Kinds(gs) && g.arg == LastTimed(gs)
    decreases |gs|
  {
    var l, front := gs[|gs| - 1], gs[..|gs| - 1];
    assert gs == front + [l];
    if Timed(l.opt) {
      assert l in gs;
    } else {
      var g :| g in gs && Timed(g.opt);
      assert g in front;
      LastTimedIs(front);
      var h :| h in front && Timed(h.opt) && h.arg == LastTimed(front);
      assert h in gs;
    }
  }

  lemma {:induction false} NoLastTimed(gs: seq<Group>)
    requires forall g :: g in gs ==> !Timed(g.opt)
    ensures LastTimed(gs) == None
    decreases |gs|
  {
    if gs != [] {
      NoLastTimed(gs[..|gs| - 1]);
    }
  }

  ghost predicate OneTimed(gs: seq<Group>) {
    forall g, h :: g in gs && h in gs && Timed(g.opt) && Timed(h.opt) ==> g == h
  }

  /** Two lists with the same groups in any order are both accepted or both refused, with the same flags
      and unit, and with the same expire argument unless different timed groups compete. */
  lemma OrderIsIrrelevant(args: seq<Obj>, args': seq<Obj>, cmd: CommandType)
    requires Groups(args, cmd).Some? && Groups(args', cmd).Some?
    requires multiset(Groups(args, cmd).value) == multiset(Groups(args', cmd).value)
    ensures var r, r' := Parse(args, cmd, {}, None, false), Parse(args', cmd, {}, None, false);
      && (Accepted(r) <==> Accepted(r'))
      && (Accepted(r) ==> r.flags == r'.flags && r.millis == r'.millis)
      && (Accepted(r) && OneTimed(Groups(args, cmd).value) ==> r.expire == r'.expire)
  {
    var gs, hs := Groups(args, cmd).value, Groups(args', cmd).value;
    forall g
      ensures g in gs <==> g in hs
    {
      assert g in multiset(gs) <==> g in multiset(hs);
    }
    assert Kinds(gs) == Kinds(hs);
    PairwiseByKinds(gs);
    PairwiseByKinds(hs);
    ParseExact(args, cmd);
    ParseExact(args', cmd);
    TimedHasArg(args, cmd);
    TimedHasArg(args', cmd);
    if g :| g in gs && Timed(g.opt) {
      LastTimedIs(gs);
      LastTimedIs(hs);
    } else {
      NoLastTimed(gs);
      NoLastTimed(hs);
    }
  }

  // ---------------------------------------------------------------- where the loop stops

  /** The list splits into known groups that are pairwise compatible. */
  predicate Acceptable(args: seq<Obj>, cmd: CommandType) {
    Groups(args, cmd).Some? && PairwiseCompatible(Groups(args, cmd).value)
  }

  /** n arguments are the longest beginning of the list that could be accepted. */
  predicate Longest(args: seq<Obj>, cmd: CommandType, n: nat) {
    && n <= |args| && Acceptable(args[..n], cmd)
    && forall m :: n < m <= |args| ==> !Acceptable(args[..m], cmd)
  }

  /** The argument at which the loop stops. */
  function Stop(args: seq<Obj>, cmd: CommandType, flags: set<Opt>): (n: nat)
    ensures n <= |args|
    decreases |args|
  {
    if args == [] || !args[0].value.Str? || Word(args[0].value.s) == None then 0
    else
      var o := Word(args[0].value.s).value;
      if !Allowed(o, cmd) || !BranchOpen(o, flags) || (Timed(o) && |args| == 1) then 0
      else if Timed(o) then 2 + Stop(args[2..], cmd, flags + {o})
      else 1 + Stop(args[1..], cmd, flags + {o})
  }

  /** The loop accepts what is before that argument and no more, and reports no more. */
  ghost predicate StopsAt(args: seq<Obj>, n: nat, cmd: CommandType, flags: set<Opt>, expire: Option<Obj>, millis: bool) {
    var r := Parse(args, cmd, flags, expire, millis);
    && n <= |args| && Accepted(Parse(args[..n], cmd, flags, expire, millis))
    && r == (if n == |args| then Parse(args[..n], cmd, flags, expire, millis)
             else Parse(args[..n], cmd, flags, expire, millis).(ok := args[n].value.Str?, replied := true))
    && forall m :: n < m <= |args| ==> !Accepted(Parse(args[..m], cmd, flags, expire, millis))
  }

  /** One turn of the loop on a beginning of the list. */
  lemma ParseTurn(args: seq<Obj>, cmd: CommandType, flags: set<Opt>, expire: Option<Obj>, millis: bool, o: Opt, w: nat, m: nat)
    requires m <= |args| && args != [] && args[0].value.Str? && Word(args[0].value.s) == Some(o)
    requires Allowed(o, cmd) && BranchOpen(o, flags) && w == (if Timed(o) then 2 else 1) && w <= |args|
    ensures 0 < m < w ==> !Accepted(Parse(args[..m], cmd, flags, expire, millis))
    ensures w <= m ==>
      Parse(args[..m], cmd, flags, expire, millis) ==
      Parse(args[w..][..m - w], cmd, flags + {o}, if Timed(o) then Some(args[1]) else expire, millis || o == PX || o == PXAT)
  {
    if 0 < m {
      assert args[..m][0] == args[0];
      if w <= m {
        assert args[..m][w..] == args[w..][..m - w];
      }
    }
  }

  lemma {:induction false} ParseStops(args: seq<Obj>, cmd: CommandType, flags: set<Opt>, expire: Option<Obj>, millis: bool)
    ensures StopsAt(args, Stop(args, cmd, flags), cmd, flags, expire, millis)
    decreases |args|
  {
    if Stop(args, cmd, flags) == 0 {
      assert args[..|args|] == args;
      assert forall m :: 0 < m <= |args| ==> args[..m][0] == args[0];
    } else {
      var o := Word(args[0].value.s).value;
      var w := if Timed(o) then 2 else 1;
      var expire', millis' := if Timed(o) then Some(args[1]) else expire, millis || o == PX || o == PXAT;
      ParseStops(args[w..], cmd, flags + {o}, expire', millis');
      StopsFurther(args, cmd, flags, expire, millis, o, w, expire', millis', Stop(args[w..], cmd, flags + {o}));
    }
  }

  lemma StopsFurther(args: seq<Obj>, cmd: CommandType, flags: set<Opt>, expire: Option<Obj>, millis: bool,
                     o: Opt, w: nat, expire': Option<Obj>, millis': bool, k: nat)
    requires args != [] && args[0].value.Str? && Word(args[0].value.s) == Some(o) && Allowed(o, cmd) && BranchOpen(o, flags)
    requires w == (if Timed(o) then 2 else 1) && w <= |args|
    requires expire' == (if Timed(o) then Some(args[1]) else expire) && millis' == (millis || o == PX || o == PXAT)
    requires StopsAt(args[w..], k, cmd, flags + {o}, expire', millis')
    ensures StopsAt(args, w + k, cmd, flags, expire, millis)
  {
    forall m | 0 <= m <= |args| {
      ParseTurn(args, cmd, flags, expire, millis, o, w, m);
    }
    assert args[..|args|] == args && args[w..][..|args| - w] == args[w..];
  }

  /** Every list has such a beginning: what is before that argument. */
  lemma LongestIsStop(args: seq<Obj>, cmd: CommandType)
    ensures Longest(args, cmd, Stop(args, cmd, {}))
  {
    ParseStops(args, cmd, {}, None, false);
    forall m | 0 <= m <= |args|
      ensures Acceptable(args[..m], cmd) <==> Accepted(Parse(args[..m], cmd, {}, None, false))
    {
      ParseExact(args[..m], cmd);
    }
  }

  /** Whether it is the whole list or not, the options of its longest acceptable beginning take effect; what stands
      there is replied to as a syntax error, and stops the command if it is no string. */
  lemma ParseLongest(args: seq<Obj>, cmd: CommandType, n: nat)
    requires Longest(args, cmd, n)
    ensures var gs := Groups(args[..n], cmd).value;
      Parse(args, cmd, {}, None, false) ==
      Options(Kinds(gs), LastTimed(gs), PX in Kinds(gs) || PXAT in Kinds(gs), n < |args| ==> args[n].value.Str?, n < |args|)
  {
    ParseStops(args, cmd, {}, None, false);
    LongestIsStop(args, cmd);
    assert Acceptable(args[..n], cmd) && n == Stop(args, cmd, {});
    ParseExact(args[..n], cmd);
  }

  // ---------------------------------------------------------------- the command

  datatype Reply = SyntaxError | InvalidExpire | ExpireOutOfRange | NullReply | OkReply

  /** What a command did: its replies, and the database; a panic is a runtime error of the source. */
  datatype Effect = Effect(replies: seq<Reply>, db: Db) | Panic

  const MAX_SECONDS := 9223372036
  const MAX_MILLIS := 9223372036854775
  const MAX_INT64 := 9223372036854775807

  /** getLongLongFromObject: a raw or embedded string object yields 0 unless it happens to hold a number. */
  function LongLong(o: Obj): Option<nat> {
    match o.encoding
    case Raw => Some(if o.value.U64? then o.value.n else 0)
    case EmbStr => Some(if o.value.U64? then o.value.n else 0)
    case Int => if o.value.U64? then Some(o.value.n) else None
    case OtherEncoding => None
  }

  datatype ExpireTime = Millis(ms: nat) | Bad(reply: Reply) | ExpiryPanic

  function ExpireMilliseconds(o: Obj, millis: bool): ExpireTime {
    match LongLong(o)
    case None => ExpiryPanic
    case Some(n) =>
      if n == 0 then Bad(InvalidExpire)
      else if (!millis && n > MAX_SECONDS) || (millis && n > MAX_MILLIS) then Bad(ExpireOutOfRange)
      else Millis(if millis then n else n * 1000)
  }

  /** An expire time is good exactly when it is a positive number of seconds or milliseconds up to a limit, and is
      stored in milliseconds. A zero is invalid, a larger number out of range. No string is ever good: it
      is invalid, or a panic where the encoding promises a number. */
  lemma ExpiryExact(n: nat, s: string, enc: Encoding, lru: int, millis: bool)
    ensures var e := ExpireMilliseconds(Obj(U64(n), enc, lru), millis);
      if enc == OtherEncoding then e == ExpiryPanic
      else if n == 0 then e == Bad(InvalidExpire)
      else if !millis && n > 9223372036 then e == Bad(ExpireOutOfRange)
      else if millis && n > 9223372036854775 then e == Bad(ExpireOutOfRange)
      else e == Millis(if millis then n else 1000 * n)
    ensures var e := ExpireMilliseconds(Obj(Str(s), enc, lru), millis);
      e == if enc == Raw || enc == EmbStr then Bad(InvalidExpire) else ExpiryPanic
  {
  }

  /** setGenericCommand. */
  method SetGenericCommand(db: RedisDb, flags: set<Opt>, key: string, val: Obj, expire: Option<Obj>, millis: bool)
    returns (e: Effect)
    requires db.Valid()
    modifies db
    ensures db.Valid() && e == SetGeneric(old(db.State()), flags, key, val, expire, millis)
    ensures e.Effect? ==> db.State() == e.db
  {
    var ms := 0;
    if expire.Some? {
      match ExpireMilliseconds(expire.value, millis) {
        case ExpiryPanic => return Panic;
        case Bad(reply) => return Effect([reply], Db(db.hash, db.dict, db.expire));
        case Millis(m) => ms := m;
      }
    }
    var exist, ok := db.LookupKeyWrite(key);
    if !ok {
      return Panic;
    }
    if (XX in flags && !exist) || (NX in flags && exist) {
      return Effect(if GET in flags then [] else [NullReply], Db(db.hash, db.dict, db.expire));
    }
    var keepTTL := KEEPTTL in flags || expire == None;
    ok := db.SetKey(key, val, SetKeyFlags(keepTTL, exist, !exist, false));
    if !ok {
      return Panic;
    }
    if expire.Some? {
      db.SetExpire(key, ms);
    }
    return Effect(if GET in flags then [] else [OkReply], Db(db.hash, db.dict, db.expire));
  }

  function SetGeneric(db: Db, flags: set<Opt>, key: string, val: Obj, expire: Option<Obj>, millis: bool): (e: Effect)
    requires Shaped(db)
    ensures e.Effect? ==> Shaped(e.db)
  {
    if expire.Some? && ExpireMilliseconds(expire.value, millis).ExpiryPanic? then Panic
    else if expire.Some? && ExpireMilliseconds(expire.value, millis).Bad? then
      Effect([ExpireMilliseconds(expire.value, millis).reply], db)
    else
      match Touch(db, key)
      case None => Panic
      case Some(d) =>
        var exist := Value(db, key).Some?;
        if (XX in flags && !exist) || (NX in flags && exist) then Effect(if GET in flags then [] else [NullReply], d)
        else
          match AfterSetKey(d, key, val, SetKeyFlags(KEEPTTL in flags || expire == None, exist, !exist, false))
          case None => Panic
          case Some(stored) =>
            Effect(if GET in flags then [] else [OkReply],
                   if expire.Some? then WithExpire(stored, key, ExpireMilliseconds(expire.value, millis).ms) else stored)
  }

  /** The calls of a command with a good time, or none: a lookup, and unless NX or XX fails a SetKey that is told what
      the lookup found, and a SetExpire. */
  function SetCalls(db: Db, flags: set<Opt>, key: string, val: Obj, time: Option<nat>): seq<KeyspaceRuns.Call>
    requires Shaped(db)
  {
    var exist := Value(db, key).Some?;
    if (XX in flags && !exist) || (NX in flags && exist) then [KeyspaceRuns.CallLookup(key)]
    else
      [KeyspaceRuns.CallLookup(key),
       KeyspaceRuns.CallSetKey(key, val, SetKeyFlags(KEEPTTL in flags || time == None, exist, !exist, false))]
      + if time.Some? then [KeyspaceRuns.CallSetExpire(key, time.value)] else []
  }

  lemma SetCallsAre(db: Db, flags: set<Opt>, key: string, val: Obj, time: Option<nat>)
    requires Shaped(db)
    ensures var exist, calls := Value(db, key).Some?, SetCalls(db, flags, key, val, time);
      KeyspaceRuns.ApplyAll(db, calls) ==
      match Touch(db, key)
      case None => None
      case Some(d) =>
        if |calls| == 1 then Some(d)
        else
          match AfterSetKey(d, key, val, SetKeyFlags(KEEPTTL in flags || time == None, exist, !exist, false))
          case None => None
          case Some(stored) => Some(if time.Some? then WithExpire(stored, key, time.value) else stored)
  {
    var calls := SetCalls(db, flags, key, val, time);
    FirstCall(db, calls);
    if |calls| > 1 && Touch(db, key).Some? {
      SetCallsGoOn(Touch(db, key).value, calls[1..], key, time);
    }
  }

  lemma SetCallsGoOn(db: Db, calls: seq<KeyspaceRuns.Call>, key: string, time: Option<nat>)
    requires Shaped(db) && calls != []
    requires calls[1..] == if time.Some? then [KeyspaceRuns.CallSetExpire(key, time.value)] else []
    ensures KeyspaceRuns.ApplyAll(db, calls) ==
            match KeyspaceRuns.Apply(db, calls[0])
            case None => None
            case Some(d) => Some(if time.Some? then WithExpire(d, key, time.value) else d)
  {
    FirstCall(db, calls);
    if time.Some? && KeyspaceRuns.Apply(db, calls[0]).Some? {
      FirstCall(KeyspaceRuns.Apply(db, calls[0]).value, calls[1..]);
    }
  }

  /** On every keyspace, sound or not, the command is these calls, and panics iff one of them does. */
  lemma SetIsCalls(db: Db, flags: set<Opt>, key: string, val: Obj, expire: Option<Obj>, millis: bool)
    requires Shaped(db) && (expire.Some? ==> ExpireMilliseconds(expire.value, millis).Millis?)
    ensures var time := if expire.Some? then Some(ExpireMilliseconds(expire.value, millis).ms) else None;
      var calls := SetCalls(db, flags, key, val, time);
      SetGeneric(db, flags, key, val, expire, millis) ==
      match KeyspaceRuns.ApplyAll(db, calls)
      case None => Panic
      case Some(d) => Effect(if GET in flags then [] else if |calls| == 1 then [NullReply] else [OkReply], d)
  {
    SetCallsAre(db, flags, key, val, if expire.Some? then Some(ExpireMilliseconds(expire.value, millis).ms) else None);
  }

  lemma FirstCall(db: Db, calls: seq<KeyspaceRuns.Call>)
    requires Shaped(db) && calls != []
    ensures KeyspaceRuns.ApplyAll(db, calls) ==
            match KeyspaceRuns.Apply(db, calls[0])
            case None => None
            case Some(d) => if |calls| == 1 then Some(d) else KeyspaceRuns.ApplyAll(d, calls[1..])
  {
    assert |calls| == 1 ==> calls[1..] == [];
  }

  // ---------------------------------------------------------------- what SET does to values and expiries

  /** What a lookup makes of a stored object: it is accessed now. */
  function Looked(v: Option<Ref>): Option<Ref> {
    match v
    case Some(Some(o)) => Some(Some(o.(lru := 100)))
    case _ => v
  }

  /** The expire argument is bad, or NX or XX fails. */
  predicate Refused(db: Db, flags: set<Opt>, key: string, expire: Option<Obj>, millis: bool)
    requires Shaped(db)
  {
    || (expire.Some? && ExpireMilliseconds(expire.value, millis).Bad?)
    || (XX in flags && Value(db, key) == None) || (NX in flags && Value(db, key).Some?)
  }

  /** The commands that break a table underneath, if they are carried out. */
  predicate SetBreaks(db: Db, flags: set<Opt>, key: string, expire: Option<Obj>)
    requires Shaped(db)
  {
    || (Value(db, key) == None && Dict.LinksTwice(DictEnv(db.hash), db.dict, key))
    || (expire.Some? && KEEPTTL in flags && DictCalls.Stale(ExpireEnv(db.hash), db.expire, key))
  }

  /** setGenericCommand on values and expiries, with one reply, or none under GET. A bad expire changes nothing, a
      failed NX or XX only the key's access time. Otherwise this key alone gets the given object, accessed now; a
      given expiry is set, and without one the key's old expiry is kept. The keyspace stays sound exactly when the
      command breaks no table. */
  lemma SetGenericExact(db: Db, flags: set<Opt>, key: string, val: Obj, expire: Option<Obj>, millis: bool)
    requires KeyspaceRuns.Sound(db)
    requires expire.Some? ==> !ExpireMilliseconds(expire.value, millis).ExpiryPanic?
    ensures var e, refused := SetGeneric(db, flags, key, val, expire, millis), Refused(db, flags, key, expire, millis);
      && e.Effect?
      && e.replies == (if expire.Some? && ExpireMilliseconds(expire.value, millis).Bad?
                       then [ExpireMilliseconds(expire.value, millis).reply]
                       else if GET in flags then [] else if refused then [NullReply] else [OkReply])
      && (KeyspaceRuns.Sound(e.db) <==> refused || !SetBreaks(db, flags, key, expire))
      && (forall q :: Value(e.db, q) == if q != key || (expire.Some? && ExpireMilliseconds(expire.value, millis).Bad?) then Value(db, q)
                                        else if refused then Looked(Value(db, q)) else Some(Some(val.(lru := 100))))
      && (forall q :: Expiry(e.db, q) == if !refused && q == key && expire.Some?
                                         then Some(ExpireMilliseconds(expire.value, millis).ms) else Expiry(db, q))
  {
    if !(expire.Some? && ExpireMilliseconds(expire.value, millis).Bad?) {
      Touched(db, key);
      if !Refused(db, flags, key, expire, millis) {
        var keepTTL := KEEPTTL in flags || expire == None;
        Carried(db, key, val, keepTTL, if expire.Some? then Some(ExpireMilliseconds(expire.value, millis).ms) else None);
      }
    }
  }

  /** t is db after a lookup of the key. */
  ghost predicate AfterLookup(db: Db, key: string, t: Db)
    requires Shaped(db) && Shaped(t)
  {
    && KeyspaceRuns.Sound(t) && t.hash == db.hash && t.expire == db.expire
    && (Value(db, key) == None ==> t == db)
    && (forall q :: Value(t, q) == if q == key then Looked(Value(db, q)) else Value(db, q))
    && forall q :: Expiry(t, q) == Expiry(db, q)
  }

  /** s is t after a SetKey that was told rightly whether the key exists. */
  ghost predicate AfterPut(t: Db, key: string, val: Obj, keepTTL: bool, s: Db)
    requires Shaped(t) && Shaped(s)
  {
    && s.hash == t.hash && DictRefinement.Good(ExpireEnv(t.hash), s.expire) && Value(s, key).Some?
    && (KeyspaceRuns.Sound(s) <==> Value(t, key).Some? || !Dict.LinksTwice(DictEnv(t.hash), t.dict, key))
    && (keepTTL ==> s.expire == t.expire)
    && (forall q :: Value(s, q) == if q == key then Some(Some(val.(lru := 100))) else Value(t, q))
    && (forall q :: Expiry(s, q) == if q == key && !keepTTL then None else Expiry(t, q))
  }

  lemma Touched(db: Db, key: string)
    requires KeyspaceRuns.Sound(db)
    ensures Touch(db, key).Some? && AfterLookup(db, key, Touch(db, key).value)
  {
    KeyspaceRuns.LookupExact(db, key);
  }

  lemma Put(t: Db, key: string, val: Obj, keepTTL: bool)
    requires KeyspaceRuns.Sound(t) && Value(t, key) == Looked(Value(t, key))
    ensures var exist := Value(t, key).Some?;
      var s := AfterSetKey(t, key, val, SetKeyFlags(keepTTL, exist, !exist, false));
      s.Some? && AfterPut(t, key, val, keepTTL, s.value)
  {
    var exist := Value(t, key).Some?;
    var flags := SetKeyFlags(keepTTL, exist, !exist, false);
    AbsentIsNotStale(t, key);
    KeyspaceRuns.SetKeyPanics(t, key, val, flags);
    KeyspaceRuns.SetKeyExact(t, key, val, flags);
    PutStores(t, key, val, flags, AfterSetKey(t, key, val, flags).value);
  }

  lemma PutStores(t: Db, key: string, val: Obj, flags: SetKeyFlags, s: Db)
    requires KeyspaceRuns.Sound(t) && Shaped(s) && KeyspaceRuns.Effect(t, KeyspaceRuns.CallSetKey(key, val, flags), s)
    requires !flags.addOrUpdated && (flags.alreadyExists <==> Value(t, key).Some?) && Value(t, key) == Looked(Value(t, key))
    ensures forall q :: Value(s, q) == if q == key then Some(Some(val.(lru := 100))) else Value(t, q)
  {
    if Value(t, key) == None {
      KeyspaceRuns.AddExactHere(t, key, val);
      AbsentIsNotStale(t, key);
    }
    assert Value(s, key) == KeyspaceRuns.Stored(t, key, val, flags);
  }

  lemma ComposedLookups(db: Db, t: Db, s: Db, d: Db, key: string, val: Obj, keepTTL: bool, ms: Option<nat>)
    requires Shaped(db) && Shaped(t) && Shaped(s) && Shaped(d) && (ms == None ==> keepTTL)
    requires forall q :: Value(t, q) == if q == key then Looked(Value(db, q)) else Value(db, q)
    requires forall q :: Expiry(t, q) == Expiry(db, q)
    requires forall q :: Value(s, q) == if q == key then Some(Some(val.(lru := 100))) else Value(t, q)
    requires forall q :: Expiry(s, q) == if q == key && !keepTTL then None else Expiry(t, q)
    requires forall q :: Value(d, q) == Value(s, q)
    requires forall q :: Expiry(d, q) == if q == key && ms.Some? then ms else Expiry(s, q)
    ensures forall q :: Value(d, q) == if q == key then Some(Some(val.(lru := 100))) else Value(db, q)
    ensures forall q :: Expiry(d, q) == if q == key && ms.Some? then ms else Expiry(db, q)
  {
  }

  /** What the command comes to: the lookups, and whether a table broke. */
  ghost predicate Done(db: Db, key: string, val: Obj, keepTTL: bool, ms: Option<nat>, d: Db)
    requires Shaped(db) && Shaped(d)
  {
    && (KeyspaceRuns.Sound(d) <==>
          (Value(db, key).Some? || !Dict.LinksTwice(DictEnv(db.hash), db.dict, key))
          && !(ms.Some? && keepTTL && DictCalls.Stale(ExpireEnv(db.hash), db.expire, key)))
    && (forall q :: Value(d, q) == if q == key then Some(Some(val.(lru := 100))) else Value(db, q))
    && (forall q :: Expiry(d, q) == if q == key && ms.Some? then ms else Expiry(db, q))
  }

  /** The command on its way: d is what SetExpire, if there is an expiry, makes of s. */
  lemma Composed(db: Db, t: Db, s: Db, d: Db, key: string, val: Obj, keepTTL: bool, ms: Option<nat>)
    requires Shaped(db) && Shaped(t) && Shaped(s) && (ms == None ==> keepTTL)
    requires AfterLookup(db, key, t) && AfterPut(t, key, val, keepTTL, s)
    requires d == if ms.Some? then WithExpire(s, key, ms.value) else s
    ensures Shaped(d) && Done(db, key, val, keepTTL, ms, d)
  {
    if ms.Some? {
      ThenExpire(key, s, ms.value);
      assert keepTTL || Expiry(s, key) == None;
    }
    ComposedLookups(db, t, s, d, key, val, keepTTL, ms);
  }

  /** SetKey after a lookup, and SetExpire if there is an expiry; without KEEPTTL the old one is gone by then. */
  lemma Carried(db: Db, key: string, val: Obj, keepTTL: bool, ms: Option<nat>)
    requires KeyspaceRuns.Sound(db) && (ms == None ==> keepTTL)
    requires Touch(db, key).Some? && Shaped(Touch(db, key).value)
    ensures var exist := Value(db, key).Some?;
      var s := AfterSetKey(Touch(db, key).value, key, val, SetKeyFlags(keepTTL, exist, !exist, false));
      && s.Some?
      && Done(db, key, val, keepTTL, ms, if ms.Some? then WithExpire(s.value, key, ms.value) else s.value)
  {
    var t := Touch(db, key).value;
    Touched(db, key);
    Put(t, key, val, keepTTL);
    var exist := Value(t, key).Some?;
    var s := AfterSetKey(t, key, val, SetKeyFlags(keepTTL, exist, !exist, false)).value;
    Composed(db, t, s, if ms.Some? then WithExpire(s, key, ms.value) else s, key, val, keepTTL, ms);
  }

  /** SetExpire breaks the expiry table exactly when the old expiry is still there and stale. */
  lemma ThenExpire(key: string, s: Db, at: nat)
    requires Shaped(s) && DictRefinement.Good(ExpireEnv(s.hash), s.expire) && Value(s, key).Some?
    ensures var d := WithExpire(s, key, at);
      && (KeyspaceRuns.Sound(d) <==> KeyspaceRuns.Sound(s) && !DictCalls.Stale(ExpireEnv(s.hash), s.expire, key))
      && (forall q :: Value(d, q) == Value(s, q))
      && (forall q :: Expiry(d, q) == if q == key then Some(at) else Expiry(s, q))
    ensures Expiry(s, key) == None ==> !DictCalls.Stale(ExpireEnv(s.hash), s.expire, key)
  {
    KeyspaceRuns.WithExpireExact(s, key, at);
    KeyspaceRuns.SameDict(s, WithExpire(s, key, at));
  }

  lemma AbsentIsNotStale(db: Db, key: string)
    requires KeyspaceRuns.Sound(db)
    ensures Value(db, key) == None ==> !DictCalls.Stale(DictEnv(db.hash), db.dict, key)
    ensures Expiry(db, key) == None ==> !DictCalls.Stale(ExpireEnv(db.hash), db.expire, key)
  {
  }

  /** The expiry of a key as the command's description has it after a SET of `key` that was carried out. */
  function IntendedExpiry(db: Db, flags: set<Opt>, key: string, ms: Option<nat>, q: string): Option<nat>
    requires Shaped(db)
  {
    if q != key then Expiry(db, q) else if ms.Some? then ms else if KEEPTTL in flags then Expiry(db, q) else None
  }

  /** So the command does with the expiry what it is described to do exactly when an expiry is given, or
      is to be kept, or there was none. */
  lemma PlainSetKeepsExpiry(db: Db, flags: set<Opt>, key: string, val: Obj, expire: Option<Obj>, millis: bool)
    requires KeyspaceRuns.Sound(db) && !Refused(db, flags, key, expire, millis)
    requires expire.Some? ==> !ExpireMilliseconds(expire.value, millis).ExpiryPanic?
    ensures var e := SetGeneric(db, flags, key, val, expire, millis);
      var ms := if expire.Some? then Some(ExpireMilliseconds(expire.value, millis).ms) else None;
      && e.Effect?
      && ((forall q :: Expiry(e.db, q) == IntendedExpiry(db, flags, key, ms, q)) <==>
            expire.Some? || KEEPTTL in flags || Expiry(db, key) == None)
  {
    SetGenericExact(db, flags, key, val, expire, millis);
    var e := SetGeneric(db, flags, key, val, expire, millis);
    assert Expiry(e.db, key) == if expire.Some? then Some(ExpireMilliseconds(expire.value, millis).ms) else Expiry(db, key);
  }

  // ---------------------------------------------------------------- SET

  /** Set: the options are parsed, and the command goes on unless an argument was no string. */
  function SetCommand(db: Db, argv: seq<Obj>): (e: Effect)
    requires |argv| >= 3 && argv[1].value.Str? && Shaped(db)
    ensures e.Effect? ==> Shaped(e.db)
  {
    var r := Parse(argv[3..], CommandSet, {}, None, false);
    var said := if r.replied then [SyntaxError] else [];
    if !r.ok then Effect(said, db)
    else
      match SetGeneric(db, r.flags, argv[1].value.s, argv[2], r.expire, r.millis)
      case Panic => Panic
      case Effect(replies, d) => Effect(said + replies, d)
  }

  method Set(db: RedisDb, argv: seq<Obj>) returns (e: Effect)
    requires |argv| >= 3 && argv[1].value.Str? && db.Valid()
    modifies db
    ensures db.Valid() && e == SetCommand(old(db.State()), argv)
    ensures e.Effect? ==> db.State() == e.db
  {
    var r := ParseExtendedStringArgumentsOrReply(argv, {}, CommandSet);
    var said := if r.replied then [SyntaxError] else [];
    if !r.ok {
      return Effect(said, Db(db.hash, db.dict, db.expire));
    }
    e := SetGenericCommand(db, r.flags, argv[1].value.s, argv[2], r.expire, r.millis);
    match e {
      case Panic =>
      case Effect(replies, d) => e := Effect(said + replies, d);
    }
  }

  /** The time that the options give, in milliseconds, or what is wrong with it. */
  function Time(gs: seq<Group>): Option<ExpireTime> {
    if LastTimed(gs) == None then None
    else Some(ExpireMilliseconds(LastTimed(gs).value, PX in Kinds(gs) || PXAT in Kinds(gs)))
  }

  /** SET on a sound keyspace, whatever its option list. Let gs be the options of the longest beginning of the list
      that could be accepted. If the list goes on, there is a syntax error, and nothing more happens if it goes
      on with something that is no string. Otherwise the options gs count: a bad time or a failed NX or XX is
      refused; or argv[1] holds argv[2] and is accessed now, with the given time as its expiry, if one is
      given, and else with the expiry it had. No other key changes. */
  lemma SetExact(db: Db, argv: seq<Obj>, n: nat)
    requires |argv| >= 3 && argv[1].value.Str? && KeyspaceRuns.Sound(db) && Longest(argv[3..], CommandSet, n)
    ensures var e, key, gs, more := SetCommand(db, argv), argv[1].value.s, Groups(argv[3..][..n], CommandSet).value, 3 + n < |argv|;
      var kinds, time, said := Kinds(gs), Time(gs), if more then [SyntaxError] else [];
      var failed := (XX in kinds && Value(db, key) == None) || (NX in kinds && Value(db, key).Some?);
      if more && !argv[3 + n].value.Str? then e == Effect(said, db)
      else if time == Some(ExpiryPanic) then e == Panic
      else if time.Some? && time.value.Bad? then e == Effect(said + [time.value.reply], db)
      else
        && e.Effect?
        && e.replies == said + (if GET in kinds then [] else if failed then [NullReply] else [OkReply])
        && (forall q :: Value(e.db, q) == if q != key then Value(db, q)
                                          else if failed then Looked(Value(db, q)) else Some(Some(argv[2].(lru := 100))))
        && (forall q :: Expiry(e.db, q) == if q == key && !failed && time.Some? then Some(time.value.ms) else Expiry(db, q))
        && (KeyspaceRuns.Sound(e.db) <==> failed || Value(db, key).Some? || !Dict.LinksTwice(DictEnv(db.hash), db.dict, key))
  {
    var args, gs, key := argv[3..], Groups(argv[3..][..n], CommandSet).value, argv[1].value.s;
    var kinds, millis := Kinds(gs), PX in Kinds(gs) || PXAT in Kinds(gs);
    ParseLongest(args, CommandSet, n);
    TimedExcludesKeepTTL(args, CommandSet, {}, None, false);
    assert n < |args| ==> args[n] == argv[3 + n];
    if !(n < |args| && !args[n].value.Str?) && Time(gs) != Some(ExpiryPanic) {
      SetGenericExact(db, kinds, key, argv[2], LastTimed(gs), millis);
    }
  }

  /** However the parse ends, a timed option and KEEPTTL do not go together. */
  lemma {:induction false} TimedExcludesKeepTTL(args: seq<Obj>, cmd: CommandType, flags: set<Opt>, expire: Option<Obj>, millis: bool)
    requires expire.Some? ==> KEEPTTL !in flags && exists o :: o in flags && Timed(o)
    ensures var r := Parse(args, cmd, flags, expire, millis); r.expire.Some? ==> KEEPTTL !in r.flags
    decreases |args|
  {
    if args != [] && args[0].value.Str? && Word(args[0].value.s).Some? {
      var o := Word(args[0].value.s).value;
      if Allowed(o, cmd) && BranchOpen(o, flags) && !(Timed(o) && |args| == 1) {
        if Timed(o) {
          assert o in flags + {o};
          TimedExcludesKeepTTL(args[2..], cmd, flags + {o}, Some(args[1]), millis || o == PX || o == PXAT);
        } else {
          if expire.Some? {
            var t :| t in flags && Timed(t);
            assert t in flags + {o};
          }
          TimedExcludesKeepTTL(args[1..], cmd, flags + {o}, expire, millis);
        }
      }
    }
  }

  /** A SET command leaves the keyspace sound unless it stores a new key for which AddRaw links twice: the
      expiry table never breaks under it. */
  lemma SetKeepsSound(db: Db, argv: seq<Obj>)
    requires |argv| >= 3 && argv[1].value.Str? && KeyspaceRuns.Sound(db)
    requires SetCommand(db, argv).Effect?
    ensures var r, key := Parse(argv[3..], CommandSet, {}, None, false), argv[1].value.s;
      KeyspaceRuns.Sound(SetCommand(db, argv).db) <==>
        !r.ok || Refused(db, r.flags, key, r.expire, r.millis)
        || Value(db, key).Some? || !Dict.LinksTwice(DictEnv(db.hash), db.dict, key)
  {
    var r, key := Parse(argv[3..], CommandSet, {}, None, false), argv[1].value.s;
    TimedExcludesKeepTTL(argv[3..], CommandSet, {}, None, false);
    if r.ok && !(r.expire.Some? && ExpireMilliseconds(r.expire.value, r.millis).ExpiryPanic?) {
      SetGenericExact(db, r.flags, key, argv[2], r.expire, r.millis);
    }
  }

  /** A syntax error stops SET exactly when it is an argument that is no string: on an unknown, misplaced
      or conflicting word the error is sent and the command is carried out with the options before it, so
      that its own reply goes out as well, unless GET silences it. */
  lemma SyntaxErrorStillSets(db: Db, argv: seq<Obj>)
    requires |argv| >= 3 && argv[1].value.Str? && KeyspaceRuns.Sound(db)
    requires Parse(argv[3..], CommandSet, {}, None, false).replied
    requires SetCommand(db, argv).Effect?
    ensures var r, e := Parse(argv[3..], CommandSet, {}, None, false), SetCommand(db, argv);
      && e.replies[0] == SyntaxError
      && (e.replies == [SyntaxError] <==>
            !r.ok || (GET in r.flags && !(r.expire.Some? && ExpireMilliseconds(r.expire.value, r.millis).Bad?)))
      && (r.ok ==> e.db == SetGeneric(db, r.flags, argv[1].value.s, argv[2], r.expire, r.millis).db)
      && (!r.ok ==> e.db == db)
  {
    var r := Parse(argv[3..], CommandSet, {}, None, false);
    if r.ok && !(r.expire.Some? && ExpireMilliseconds(r.expire.value, r.millis).ExpiryPanic?) {
      SetGenericExact(db, r.flags, argv[1].value.s, argv[2], r.expire, r.millis);
    }
  }

  /** SET k v oops, on an empty database: a syntax error is replied, and k is set. */
  lemma OopsIsSet(hash: string -> nat, v: Obj)
    ensures var argv := [Obj(Str("SET"), Raw, 0), Obj(Str("k"), Raw, 0), v, Obj(Str("oops"), Raw, 0)];
      var e := SetCommand(New(hash), argv);
      e.Effect? && e.replies == [SyntaxError, OkReply] && Value(e.db, "k") == Some(Some(v.(lru := 100)))
  {
    var argv := [Obj(Str("SET"), Raw, 0), Obj(Str("k"), Raw, 0), v, Obj(Str("oops"), Raw, 0)];
    assert argv[3..] == [argv[3]] && |Upper("oops")| == 4 && Upper("oops")[0] == 'O';
    assert Word("oops") == None;
    KeyspaceRuns.NewIsSound(hash);
    SetGenericExact(New(hash), {}, "k", v, None, false);
  }

  /** SET k v EX 10 as a client sends it, its arguments raw strings: refused, the expire time "invalid". */
  lemma TimedSetFromClientFails(db: Db, flags: set<Opt>, key: string, val: Obj, text: string, lru: int, millis: bool)
    requires Shaped(db)
    ensures SetGeneric(db, flags, key, val, Some(Obj(Str(text), Raw, lru)), millis) == Effect([InvalidExpire], db)
  {
  }
}
