/** The resumable command-line parser: one call, one option. */
module ClArg {
  import opened Wrappers

  datatype Kind = NoArgument | Char | Int | Uint | String | Int64

  /** clarg_opt_t: an option may be known by several names and letters; `buffer` says whether there is
      a place for its argument. */
  datatype Opt = Opt(longs: seq<string>, shorts: seq<char>, buffer: bool, kind: Kind, code: nat)

  /** How sscanf takes an argument for a number. */
  type Scans = (Kind, string) -> bool

  /** mCurrentArg, mCurrentPos and the list of unprocessed arguments. */
  datatype State = State(arg: nat, pos: nat, unprocessed: seq<string>)

  /** What a call does: a return value, and what it stores in `*code`, if anything. A failing assert
      aborts. */
  datatype Answer = Answer(state: State, ret: int, code: Option<int>) | Aborted

  // ---- Names ----

  /** clarg_match_longopt: the length of the first name, not of the longest, that begins the argument. */
  function MatchLong(longs: seq<string>, current: string): (n: Option<nat>)
    ensures n.Some? ==> 0 < n.value <= |current|
  {
    if longs == [] then None
    else if longs[0] != "" && longs[0] <= current then Some(|longs[0]|)
    else MatchLong(longs[1..], current)
  }

  function LongLength(o: Opt, current: string): (n: nat)
    ensures n <= |current|
  {
    match MatchLong(o.longs, current)
    case None => 0
    case Some(n) => n
  }

  /** The option whose matching name is longest, the first of these, among the first `n`. */
  ghost predicate IsBest(opts: seq<Opt>, n: nat, current: string, best: Option<nat>)
    requires n <= |opts|
  {
    match best
    case None => forall i | 0 <= i < n :: LongLength(opts[i], current) == 0
    case Some(k) =>
      && k < n && LongLength(opts[k], current) > 0
      && (forall i | 0 <= i < n :: LongLength(opts[i], current) <= LongLength(opts[k], current))
      && forall i | 0 <= i < k :: LongLength(opts[i], current) < LongLength(opts[k], current)
  }

  function Best(opts: seq<Opt>, n: nat, current: string): (best: Option<nat>)
    requires n <= |opts|
    ensures IsBest(opts, n, current, best)
    decreases n
  {
    if n == 0 then None
    else
      var before := Best(opts, n - 1, current);
      var best := if before.Some? then LongLength(opts[before.value], current) else 0;
      if LongLength(opts[n - 1], current) > best then Some(n - 1) else before
  }

  function MatchShort(o: Opt, c: char): bool {
    c != '\0' && c in o.shorts
  }

  /** The first option with this letter, from the n-th on. */
  function FirstShort(opts: seq<Opt>, n: nat, c: char): (r: Option<nat>)
    requires n <= |opts|
    ensures r.Some? ==> n <= r.value < |opts| && MatchShort(opts[r.value], c)
    ensures forall i | n <= i < (if r.Some? then r.value else |opts|) :: !MatchShort(opts[i], c)
    decreases |opts| - n
  {
    if n == |opts| then None
    else if MatchShort(opts[n], c) then Some(n)
    else FirstShort(opts, n + 1, c)
  }

  // ---- One call ----

  function At(s: string, i: nat): char {
    if i < |s| then s[i] else '\0'
  }

  /** clarg_get_argument: 1 or -1; None when its assert fails. */
  function Taken(scans: Scans, o: Opt, argument: string): Option<int> {
    match o.kind
    case NoArgument => None
    case Char => Some(1)
    case String => Some(1)
    case _ => Some(if scans(o.kind, argument) then 1 else -1)
  }

  /** How the loop over a bunch of letters ends: the call is done, or it goes on with an option that
      wants the next argument. */
  datatype Bunch = Unknown | Flag(o: Opt, at: nat) | Joined(o: Opt) | WantsNext(o: Opt) | Aborts

  function BunchFrom(opts: seq<Opt>, scans: Scans, current: string, index: nat): Bunch
    requires index < |current|
    decreases |current| - index
  {
    var k := FirstShort(opts, 0, current[index]);
    if k.None? then Unknown
    else
      var o := opts[k.value];
      if !o.buffer then Flag(o, index)
      else if index + 1 == |current| then WantsNext(o)
      else
        var taken := Taken(scans, o, current[index + 1..]);
        if taken == None then Aborts
        else if taken == Some(1) then Joined(o)
        else BunchFrom(opts, scans, current, index + 1)
  }

  /** The end of the call when an option was found. */
  function WithOption(scans: Scans, argv: seq<string>, s: State, o: Opt): Answer {
    if o.buffer || o.kind != NoArgument then
      var next := s.(arg := s.arg + 1);
      if |argv| <= next.arg then Answer(next, -1, Some(o.code))
      else
        match Taken(scans, o, argv[next.arg])
        case None => Aborted
        case Some(taken) =>
          if taken == -1 then Answer(next, -1, Some(o.code)) else Answer(s.(arg := s.arg + 2), 1, Some(o.code))
    else Answer(s.(arg := s.arg + 1), 1, Some(o.code))
  }

  function WithoutOption(s: State, current: string): Answer {
    Answer(State(s.arg + 1, 0, s.unprocessed + [current]), 1, Some(-1))
  }

  function ParsedLong(opts: seq<Opt>, scans: Scans, argv: seq<string>, s: State, current: string): Answer {
    if |current| == 2 then Answer(s.(arg := s.arg + 1, pos := 0), 0, None)
    else
      var k := Best(opts, |opts|, current);
      if k.None? then WithoutOption(s, current)
      else
        var o := opts[k.value];
        var n := LongLength(o, current);
        if n < |current| && Taken(scans, o, current[n..]) == None then Aborted
        else if n < |current| && Taken(scans, o, current[n..]) == Some(1) then
          Answer(s.(arg := s.arg + 1, pos := 0), 1, Some(o.code))
        else WithOption(scans, argv, s.(pos := 0), o)
  }

  function ParsedBunch(opts: seq<Opt>, scans: Scans, argv: seq<string>, s: State, current: string): Answer
    requires |current| > 2 && s.pos < |current|
  {
    match BunchFrom(opts, scans, current, if s.pos == 0 then 1 else s.pos)
    case Unknown => Answer(s.(arg := s.arg + 1, pos := 0), 1, Some(-1))
    case Flag(o, at) =>
      if at + 1 == |current| then Answer(s.(arg := s.arg + 1, pos := 0), 1, Some(o.code))
      else Answer(s.(pos := at + 1), 1, Some(o.code))
    case Joined(o) => Answer(s.(arg := s.arg + 1, pos := 0), 1, Some(o.code))
    case WantsNext(o) => WithOption(scans, argv, s.(pos := 0), o)
    case Aborts => Aborted
  }

  /** A position is 0 or that of a letter of the current argument. */
  predicate Placed(argv: seq<string>, s: State) {
    1 <= s.arg && (s.pos == 0 || (s.arg < |argv| && s.pos < |argv[s.arg]|))
  }

  /** dagclarg_parse. */
  function Parsed(opts: seq<Opt>, scans: Scans, argv: seq<string>, s: State): Answer
    requires Placed(argv, s)
  {
    if s.arg >= |argv| then Answer(s, 0, None)
    else
      var current := argv[s.arg];
      if At(current, 0) != '-' then WithoutOption(s, current)
      else if At(current, 1) == '-' then ParsedLong(opts, scans, argv, s, current)
      else if |current| == 1 then WithoutOption(s, current)
      else if |current| == 2 then
        var k := FirstShort(opts, 0, current[1]);
        if k.None? then WithoutOption(s, current) else WithOption(scans, argv, s.(pos := 0), opts[k.value])
      else ParsedBunch(opts, scans, argv, s, current)
  }

  // ---- What is answered ----

  /** An option takes a text as its argument: any text, or one that is accepted as its kind of number. */
  predicate Accepts(scans: Scans, o: Opt, text: string)
    requires o.kind != NoArgument
  {
    o.kind == Char || o.kind == String || scans(o.kind, text)
  }

  /** A name is the first of an option's names that begins the text. */
  predicate FirstName(longs: seq<string>, text: string, i: nat) {
    && i < |longs| && longs[i] != "" && longs[i] <= text
    && forall j | 0 <= j < i :: longs[j] == "" || !(longs[j] <= text)
  }

  /** As much of the text as that name is what an option names, */
  lemma {:induction false} NamedLength(o: Opt, text: string, i: nat)
    requires FirstName(o.longs, text, i)
    ensures LongLength(o, text) == |o.longs[i]| > 0
    decreases i
  {
    if i > 0 {
      assert forall j | 0 <= j < i - 1 :: o.longs[1..][j] == o.longs[j + 1];
      NamedLength(o.(longs := o.longs[1..]), text, i - 1);
      assert o.longs[0] == "" || !(o.longs[0] <= text);
    }
  }

  /** and nothing of it without such a name. */
  lemma {:induction false} NamesNothing(o: Opt, text: string)
    requires forall i | 0 <= i < |o.longs| :: o.longs[i] == "" || !(o.longs[i] <= text)
    ensures LongLength(o, text) == 0
    decreases |o.longs|
  {
    if o.longs != [] {
      NamesNothing(o.(longs := o.longs[1..]), text);
    }
  }

  predicate IsLong(text: string) {
    |text| > 2 && text[0] == text[1] == '-'
  }

  /** The argument is an option's name: a long one of which nothing is left, a single letter, or the last
      letter of a bunch that the parser has come to, if the option has a place for an argument. */
  ghost predicate Names(opts: seq<Opt>, text: string, pos: nat, k: nat) {
    && k < |opts|
    && if IsLong(text) then IsBest(opts, |opts|, text, Some(k)) && LongLength(opts[k], text) == |text|
       else && |text| >= 2 && text[0] == '-' != text[1] && IsFirst(opts, text[|text| - 1], k)
            && (|text| > 2 ==> pos == |text| - 1 && opts[k].buffer)
  }

  /** Option number `k` is the first one with this letter. */
  ghost predicate IsFirst(opts: seq<Opt>, c: char, k: nat)
    requires k < |opts|
  {
    c != '\0' && c in opts[k].shorts && forall i | 0 <= i < k :: c !in opts[i].shorts
  }

  /** The argument is an option's name and, joined to it, the text `rest`. */
  ghost predicate Joins(opts: seq<Opt>, text: string, pos: nat, k: nat, rest: string) {
    && k < |opts| && rest != ""
    && if IsLong(text) then IsBest(opts, |opts|, text, Some(k)) && text[LongLength(opts[k], text)..] == rest
       else
         && var index := if pos == 0 then 1 else pos;
         && |text| > 2 && text[0] == '-' != text[1] && index < |text| && text[index + 1..] == rest
         && IsFirst(opts, text[index], k) && opts[k].buffer
  }

  lemma BestIs(opts: seq<Opt>, text: string, k: nat)
    requires k < |opts| && IsBest(opts, |opts|, text, Some(k))
    ensures Best(opts, |opts|, text) == Some(k)
  {
    hide LongLength;
    var b := Best(opts, |opts|, text);
    assert IsBest(opts, |opts|, text, b);
  }

  lemma FirstIs(opts: seq<Opt>, c: char, k: nat)
    requires k < |opts| && IsFirst(opts, c, k)
    ensures FirstShort(opts, 0, c) == Some(k)
  {
    var r := FirstShort(opts, 0, c);
    assert MatchShort(opts[k], c);
  }

  /** An option that is named and wants an argument gets the next one: a call answers 1 when it accepts
      it and goes on behind it, and -1 when it refuses it or there is none, and goes on at it. */
  lemma NextAnswered(opts: seq<Opt>, scans: Scans, argv: seq<string>, s: State, k: nat)
    requires Placed(argv, s) && s.arg < |argv| && Names(opts, argv[s.arg], s.pos, k) && opts[k].kind != NoArgument
    ensures var o, a := opts[k], Parsed(opts, scans, argv, s);
            if s.arg + 1 < |argv| && Accepts(scans, o, argv[s.arg + 1]) then
              a == Answer(State(s.arg + 2, 0, s.unprocessed), 1, Some(o.code))
            else a == Answer(State(s.arg + 1, 0, s.unprocessed), -1, Some(o.code))
  {
    var text := argv[s.arg];
    if IsLong(text) {
      BestIs(opts, text, k);
    } else {
      FirstIs(opts, text[|text| - 1], k);
      hide FirstShort;
    }
    hide Best, LongLength, IsBest, IsFirst;
  }

  /** One that is named and wants none is answered by 1 and its code. */
  lemma FlagAnswered(opts: seq<Opt>, scans: Scans, argv: seq<string>, s: State, k: nat)
    requires Placed(argv, s) && s.arg < |argv| && Names(opts, argv[s.arg], s.pos, k)
    requires opts[k].kind == NoArgument && !opts[k].buffer
    ensures Parsed(opts, scans, argv, s) == Answer(State(s.arg + 1, 0, s.unprocessed), 1, Some(opts[k].code))
  {
    var text := argv[s.arg];
    if IsLong(text) {
      BestIs(opts, text, k);
    } else {
      FirstIs(opts, text[|text| - 1], k);
      hide FirstShort;
    }
    hide Best, LongLength, IsBest, IsFirst;
  }

  /** A text joined to a long name is the argument if the option accepts it. If not, the next argument
      is, as if the name stood alone. */
  lemma LongJoinedAnswered(opts: seq<Opt>, scans: Scans, argv: seq<string>, s: State, k: nat, rest: string)
    requires Placed(argv, s) && s.arg < |argv| && IsLong(argv[s.arg]) && Joins(opts, argv[s.arg], s.pos, k, rest)
    requires opts[k].kind != NoArgument
    ensures var o, a := opts[k], Parsed(opts, scans, argv, s);
            if Accepts(scans, o, rest) then a == Answer(State(s.arg + 1, 0, s.unprocessed), 1, Some(o.code))
            else if s.arg + 1 < |argv| && Accepts(scans, o, argv[s.arg + 1]) then
              a == Answer(State(s.arg + 2, 0, s.unprocessed), 1, Some(o.code))
            else a == Answer(State(s.arg + 1, 0, s.unprocessed), -1, Some(o.code))
  {
    BestIs(opts, argv[s.arg], k);
    hide Best, LongLength, IsBest, IsFirst;
  }

  /** A text joined to a letter is the argument if the option accepts it. If not, it is read as more
      letters. */
  lemma LetterJoinedAnswered(opts: seq<Opt>, scans: Scans, argv: seq<string>, s: State, k: nat, rest: string)
    requires Placed(argv, s) && s.arg < |argv| && !IsLong(argv[s.arg]) && Joins(opts, argv[s.arg], s.pos, k, rest)
    requires opts[k].kind != NoArgument
    ensures var a, next := Parsed(opts, scans, argv, s), s.(pos := if s.pos == 0 then 2 else s.pos + 1);
            if Accepts(scans, opts[k], rest) then
              a == Answer(State(s.arg + 1, 0, s.unprocessed), 1, Some(opts[k].code))
            else Placed(argv, next) && a == Parsed(opts, scans, argv, next)
  {
    var text, index := argv[s.arg], if s.pos == 0 then 1 else s.pos;
    FirstIs(opts, text[index], k);
    hide Best, LongLength, IsBest, IsFirst, FirstShort, WithOption, ParsedLong;
    assert Taken(scans, opts[k], rest) == Some(if Accepts(scans, opts[k], rest) then 1 else -1);
    hide Taken, Accepts;
    assert !Accepts(scans, opts[k], rest) ==>
        BunchFrom(opts, scans, text, index) == BunchFrom(opts, scans, text, index + 1);
  }

  /** What names no option: a long argument that begins with no name, a letter of no option, or something
      without a dash in front. */
  ghost predicate NamesNone(opts: seq<Opt>, text: string, pos: nat) {
    if IsLong(text) then forall i | 0 <= i < |opts| :: LongLength(opts[i], text) == 0
    else
      var index := if pos == 0 then 1 else pos;
      || |text| < 2 || text[0] != '-'
      || (text[1] != '-' && index < |text|
          && (text[index] == '\0' || forall i | 0 <= i < |opts| :: text[index] !in opts[i].shorts))
  }

  /** It is answered by the code -1, and kept as unprocessed unless it is in a bunch of letters. */
  lemma UnknownAnswered(opts: seq<Opt>, scans: Scans, argv: seq<string>, s: State)
    requires Placed(argv, s) && s.arg < |argv| && NamesNone(opts, argv[s.arg], s.pos)
    requires |argv[s.arg]| == 2 ==> s.pos == 0
    ensures var bunch := |argv[s.arg]| > 2 && argv[s.arg][0] == '-' != argv[s.arg][1];
            var unprocessed := if bunch then s.unprocessed else s.unprocessed + [argv[s.arg]];
            Parsed(opts, scans, argv, s) == Answer(State(s.arg + 1, 0, unprocessed), 1, Some(-1))
  {
    var text := argv[s.arg];
    if IsLong(text) {
      var b := Best(opts, |opts|, text);
      assert IsBest(opts, |opts|, text, b);
    }
    hide Best, LongLength;
  }

  // ---- Progress ----

  /** What is left to be parsed: the rest of the current argument, and one more for every argument. */
  function Left(argv: seq<string>, arg: nat, pos: nat): nat
    decreases |argv| - arg
  {
    if arg >= |argv| then 0
    else (if pos <= |argv[arg]| then |argv[arg]| - pos else 0) + 1 + Left(argv, arg + 1, 0)
  }

  lemma BunchGoesOn(opts: seq<Opt>, scans: Scans, current: string, index: nat)
    requires index < |current|
    ensures var b := BunchFrom(opts, scans, current, index); b.Flag? ==> index <= b.at < |current|
    decreases |current| - index
  {
  }

  /** A call stays in its argument, further on, or goes to one of the next two. */
  predicate Ahead(argv: seq<string>, s: State, a: Answer)
    requires s.arg < |argv|
  {
    a.Answer? ==>
      && a.ret in {-1, 0, 1}
      && (a.ret == 0 ==> argv[s.arg] == "--")
      && (if a.state.arg == s.arg then s.pos < a.state.pos < |argv[s.arg]| && 2 <= a.state.pos
          else s.arg < a.state.arg <= s.arg + 2 && a.state.arg <= |argv| && a.state.pos == 0)
  }

  lemma OptionAhead(scans: Scans, argv: seq<string>, s: State, o: Opt, was: State)
    requires s.arg == was.arg < |argv| && s.pos == 0
    ensures Ahead(argv, was, WithOption(scans, argv, s, o))
  {
    hide Taken;
  }

  lemma LongAhead(opts: seq<Opt>, scans: Scans, argv: seq<string>, s: State)
    requires s.arg < |argv| && At(argv[s.arg], 0) == '-' && At(argv[s.arg], 1) == '-'
    ensures Ahead(argv, s, ParsedLong(opts, scans, argv, s, argv[s.arg]))
  {
    hide Taken, Best, LongLength, WithOption;
    var current := argv[s.arg];
    if |current| > 2 {
      var k := Best(opts, |opts|, current);
      if k.Some? {
        OptionAhead(scans, argv, s.(pos := 0), opts[k.value], s);
      }
    } else {
      assert current == "--";
    }
  }

  lemma BunchAhead(opts: seq<Opt>, scans: Scans, argv: seq<string>, s: State)
    requires s.arg < |argv| && |argv[s.arg]| > 2 && s.pos < |argv[s.arg]|
    ensures Ahead(argv, s, ParsedBunch(opts, scans, argv, s, argv[s.arg]))
  {
    hide BunchFrom, WithOption;
    var index := if s.pos == 0 then 1 else s.pos;
    BunchGoesOn(opts, scans, argv[s.arg], index);
    var b := BunchFrom(opts, scans, argv[s.arg], index);
    if b.WantsNext? {
      OptionAhead(scans, argv, s.(pos := 0), b.o, s);
    }
  }

  lemma CallAhead(opts: seq<Opt>, scans: Scans, argv: seq<string>, s: State)
    requires Placed(argv, s) && s.arg < |argv|
    ensures Ahead(argv, s, Parsed(opts, scans, argv, s))
    ensures var a := Parsed(opts, scans, argv, s); a.Answer? && argv[s.arg] == "--" ==> a.ret == 0
  {
    hide FirstShort, WithOption, ParsedLong, ParsedBunch;
    var current := argv[s.arg];
    if At(current, 0) == '-' && At(current, 1) == '-' {
      LongAhead(opts, scans, argv, s);
      DashesEnd(opts, scans, argv, s, current);
    } else if At(current, 0) == '-' && |current| == 2 {
      var k := FirstShort(opts, 0, current[1]);
      if k.Some? {
        OptionAhead(scans, argv, s.(pos := 0), opts[k.value], s);
      }
    } else if At(current, 0) == '-' && |current| > 2 {
      BunchAhead(opts, scans, argv, s);
    }
  }

  lemma DashesEnd(opts: seq<Opt>, scans: Scans, argv: seq<string>, s: State, current: string)
    ensures |current| == 2 ==>
              ParsedLong(opts, scans, argv, s, current) == Answer(s.(arg := s.arg + 1, pos := 0), 0, None)
  {
  }

  lemma LeftFalls(argv: seq<string>, s: State, t: State)
    requires s.arg < |argv| && s.pos <= |argv[s.arg]|
    requires if t.arg == s.arg then s.pos < t.pos <= |argv[s.arg]|
             else s.arg < t.arg <= s.arg + 2 && t.arg <= |argv| && t.pos == 0
    ensures Left(argv, t.arg, t.pos) < Left(argv, s.arg, s.pos)
  {
    if t.arg == s.arg + 2 {
      assert Left(argv, s.arg + 1, 0) == |argv[s.arg + 1]| + 1 + Left(argv, s.arg + 2, 0);
    }
  }

  /** Every call that says 1 or -1 gets ahead, in the arguments or within one, and every position is
      that of a letter. A call says 0 exactly at the end and at the argument "--". */
  lemma CallProgress(opts: seq<Opt>, scans: Scans, argv: seq<string>, s: State)
    requires Placed(argv, s) && Parsed(opts, scans, argv, s).Answer?
    ensures var a := Parsed(opts, scans, argv, s);
            && Placed(argv, a.state)
            && (a.state.arg <= |argv| || a.state == s)
            && (a.ret != 0 ==> s.arg < |argv| && Left(argv, a.state.arg, a.state.pos) < Left(argv, s.arg, s.pos))
            && (a.ret != 0 ==> a.state.arg > s.arg || (a.state.arg == s.arg && a.state.pos > s.pos))
            && (a.ret == 0 <==> s.arg >= |argv| || argv[s.arg] == "--")
  {
    if s.arg < |argv| {
      CallAhead(opts, scans, argv, s);
      hide Parsed, Left;
      LeftFalls(argv, s, Parsed(opts, scans, argv, s).state);
    }
  }

  // ---- The unprocessed arguments ----

  /** `u` is what is left of `v` when some elements are taken out. */
  predicate Sub(u: seq<string>, v: seq<string>)
    decreases |v|
  {
    if v == [] then u == []
    else
      || Sub(u, v[..|v| - 1])
      || (u != [] && u[|u| - 1] == v[|v| - 1] && Sub(u[..|u| - 1], v[..|v| - 1]))
  }

  lemma SubMore(u: seq<string>, v: seq<string>, x: string)
    requires Sub(u, v)
    ensures Sub(u, v + [x]) && Sub(u + [x], v + [x])
  {
    assert (v + [x])[..|v|] == v && (u + [x])[..|u|] == u;
  }

  lemma {:induction false} SubShorter(u: seq<string>, v: seq<string>)
    requires Sub(u, v)
    ensures |u| <= |v|
    decreases |v|
  {
    if v != [] {
      if Sub(u, v[..|v| - 1]) {
        SubShorter(u, v[..|v| - 1]);
      } else {
        SubShorter(u[..|u| - 1], v[..|v| - 1]);
      }
    }
  }

  /** The arguments that were passed, without the name of the program. */
  function Passed(argv: seq<string>, s: State): seq<string> {
    if 1 <= s.arg <= |argv| then argv[1..s.arg] else []
  }

  predicate Inv(argv: seq<string>, s: State) {
    Placed(argv, s) && (s.arg <= |argv| || s.arg == 1) && Sub(s.unprocessed, Passed(argv, s))
  }

  predicate IsBunch(current: string) {
    |current| > 2 && current[0] == '-' && current[1] != '-'
  }

  /** An argument is kept as unprocessed exactly when the call says that the option is unknown and the
      argument is not a bunch of letters; the documentation promises it for every unknown option. */
  lemma KeptExactly(opts: seq<Opt>, scans: Scans, argv: seq<string>, s: State)
    requires Placed(argv, s) && Parsed(opts, scans, argv, s).Answer?
    ensures var a := Parsed(opts, scans, argv, s);
            a.state.unprocessed == if a.code == Some(-1) && !IsBunch(argv[s.arg])
                                   then s.unprocessed + [argv[s.arg]] else s.unprocessed
    ensures Parsed(opts, scans, argv, s).code == Some(-1) ==> s.arg < |argv|
  {
  }

  /** A call that keeps its argument, or none, and passes at most two leaves a selection of those passed. */
  lemma PassedGrows(argv: seq<string>, s: State, t: State)
    requires 1 <= s.arg < |argv| && s.arg <= t.arg <= s.arg + 2 && t.arg <= |argv|
    requires Sub(s.unprocessed, Passed(argv, s))
    requires t.unprocessed == s.unprocessed || (t.arg > s.arg && t.unprocessed == s.unprocessed + [argv[s.arg]])
    ensures Sub(t.unprocessed, Passed(argv, t))
  {
    hide Sub;
    var x, p, q := argv[s.arg], Passed(argv, s), argv[1..s.arg + 1];
    assert q == p + [x];
    SubMore(s.unprocessed, p, x);
    assert t.arg > s.arg ==> Sub(t.unprocessed, q);
    if t.arg == s.arg + 2 {
      var y := argv[s.arg + 1];
      SubMore(t.unprocessed, q, y);
      assert argv[1..s.arg + 2] == q + [y];
      assert Passed(argv, t) == argv[1..s.arg + 2];
    }
  }

  lemma CallInv(opts: seq<Opt>, scans: Scans, argv: seq<string>, s: State)
    requires Inv(argv, s) && Parsed(opts, scans, argv, s).Answer?
    ensures Inv(argv, Parsed(opts, scans, argv, s).state)
  {
    if s.arg < |argv| {
      CallAhead(opts, scans, argv, s);
      KeptExactly(opts, scans, argv, s);
      var t := Parsed(opts, scans, argv, s).state;
      if t.arg == s.arg {
        StaysInBunch(opts, scans, argv, s);
      }
      hide Parsed, Sub, Passed, IsBunch;
      PassedGrows(argv, s, t);
    }
  }

  /** A call that stays in its argument is in a bunch of letters, and keeps nothing. */
  lemma StaysInBunch(opts: seq<Opt>, scans: Scans, argv: seq<string>, s: State)
    requires Placed(argv, s) && s.arg < |argv| && Parsed(opts, scans, argv, s).Answer?
    requires Parsed(opts, scans, argv, s).state.arg == s.arg
    ensures IsBunch(argv[s.arg])
  {
    hide FirstShort, Best, BunchFrom, Taken, LongLength;
  }

  // ---- Runs ----

  datatype Step = Call | Reset

  function Start(): State {
    State(1, 0, [])
  }

  /** The state after some steps; None if one of them aborts. */
  function Run(opts: seq<Opt>, scans: Scans, argv: seq<string>, s: State, steps: seq<Step>): Option<State>
    requires Inv(argv, s)
    decreases |steps|
  {
    if steps == [] then Some(s)
    else if steps[0] == Reset then Run(opts, scans, argv, Start(), steps[1..])
    else if Parsed(opts, scans, argv, s).Aborted? then None
    else
      CallInv(opts, scans, argv, s);
      Run(opts, scans, argv, Parsed(opts, scans, argv, s).state, steps[1..])
  }

  /** Over all calls and resets: positions are in place, and the unprocessed arguments are some of those
      passed, in their order, so that they fit the slots that were allocated for them. */
  lemma {:induction false} RunInv(opts: seq<Opt>, scans: Scans, argv: seq<string>, s: State, steps: seq<Step>)
    requires Inv(argv, s) && Run(opts, scans, argv, s, steps).Some?
    ensures var t := Run(opts, scans, argv, s, steps).value;
            && Placed(argv, t) && Sub(t.unprocessed, Passed(argv, t)) && |t.unprocessed| <= |argv|
            && (t.arg < |argv| ==> |t.unprocessed| < |argv|)
    decreases |steps|
  {
    hide Parsed;
    if steps == [] {
      SubShorter(s.unprocessed, Passed(argv, s));
    } else if steps[0] == Reset {
      RunInv(opts, scans, argv, Start(), steps[1..]);
    } else {
      CallInv(opts, scans, argv, s);
      RunInv(opts, scans, argv, Parsed(opts, scans, argv, s).state, steps[1..]);
    }
  }

  /** What `n` calls that all say 1 store as codes, and where they leave the parser. */
  function Calls(opts: seq<Opt>, scans: Scans, argv: seq<string>, s: State, n: nat): Option<(State, seq<int>)>
    requires Placed(argv, s)
    decreases n
  {
    if n == 0 then Some((s, []))
    else
      match Parsed(opts, scans, argv, s)
      case Aborted => None
      case Answer(t, ret, code) =>
        CallProgress(opts, scans, argv, s);
        if ret != 1 || code == None || Calls(opts, scans, argv, t, n - 1) == None then None
        else
          var rest := Calls(opts, scans, argv, t, n - 1).value;
          Some((rest.0, [code.value] + rest.1))
  }

  /** There are no more such calls than characters and arguments left. */
  lemma {:induction false} CallsBounded(opts: seq<Opt>, scans: Scans, argv: seq<string>, s: State, n: nat)
    requires Placed(argv, s) && Calls(opts, scans, argv, s, n).Some?
    ensures n <= Left(argv, s.arg, s.pos)
    decreases n
  {
    hide Parsed, Left;
    if n > 0 {
      CallProgress(opts, scans, argv, s);
      CallsBounded(opts, scans, argv, Parsed(opts, scans, argv, s).state, n - 1);
    }
  }

  // ---- Bunches of flags ----

  /** A letter that stands for an option without an argument. */
  predicate IsFlag(opts: seq<Opt>, c: char) {
    var k := FirstShort(opts, 0, c);
    c != '-' && k.Some? && !opts[k.value].buffer && opts[k.value].kind == NoArgument
  }

  function Codes(opts: seq<Opt>, letters: string): seq<int>
    requires forall i | 0 <= i < |letters| :: IsFlag(opts, letters[i])
  {
    if letters == "" then []
    else
      assert IsFlag(opts, letters[0]);
      [opts[FirstShort(opts, 0, letters[0]).value].code] + Codes(opts, letters[1..])
  }

  /** The rest of a bunch of flags takes one call a letter. */
  lemma {:induction false} BunchOfFlags(opts: seq<Opt>, scans: Scans, argv: seq<string>, s: State, index: nat)
    requires Placed(argv, s) && s.arg < |argv| && IsBunch(argv[s.arg])
    requires 1 <= index < |argv[s.arg]| && s.pos == (if index == 1 then 0 else index)
    requires forall i | 0 <= i < |argv[s.arg][index..]| :: IsFlag(opts, argv[s.arg][index..][i])
    ensures Calls(opts, scans, argv, s, |argv[s.arg]| - index)
         == Some((State(s.arg + 1, 0, s.unprocessed), Codes(opts, argv[s.arg][index..])))
    decreases |argv[s.arg]| - index
  {
    hide FirstShort, Best, WithOption, ParsedLong;
    var current := argv[s.arg];
    var letters := current[index..];
    assert IsFlag(opts, letters[0]) && letters[0] == current[index];
    var o := opts[FirstShort(opts, 0, current[index]).value];
    assert BunchFrom(opts, scans, current, index) == Flag(o, index);
    assert letters[1..] == current[index + 1..];
    if index + 1 == |current| {
      assert Parsed(opts, scans, argv, s) == Answer(State(s.arg + 1, 0, s.unprocessed), 1, Some(o.code));
      assert Codes(opts, letters[1..]) == [];
    } else {
      var t := s.(pos := index + 1);
      assert Parsed(opts, scans, argv, s) == Answer(t, 1, Some(o.code));
      assert forall i | 0 <= i < |letters[1..]| :: letters[1..][i] == letters[i + 1];
      BunchOfFlags(opts, scans, argv, t, index + 1);
    }
  }

  /** One argument for each letter. */
  predicate Separate(argv: seq<string>, from: nat, letters: string) {
    from + |letters| <= |argv| && forall i | 0 <= i < |letters| :: argv[from + i] == ['-', letters[i]]
  }

  lemma {:induction false} SeparateFlags(opts: seq<Opt>, scans: Scans, argv: seq<string>, s: State, letters: string)
    requires Placed(argv, s) && s.pos == 0 && Separate(argv, s.arg, letters)
    requires forall i | 0 <= i < |letters| :: IsFlag(opts, letters[i])
    ensures Calls(opts, scans, argv, s, |letters|)
         == Some((State(s.arg + |letters|, 0, s.unprocessed), Codes(opts, letters)))
    decreases |letters|
  {
    hide FirstShort, Best, BunchFrom, ParsedLong;
    if letters != "" {
      assert argv[s.arg + 0] == ['-', letters[0]] && IsFlag(opts, letters[0]);
      var o := opts[FirstShort(opts, 0, letters[0]).value];
      var t := State(s.arg + 1, 0, s.unprocessed);
      assert Parsed(opts, scans, argv, s) == Answer(t, 1, Some(o.code));
      assert forall i | 0 <= i < |letters[1..]| :: letters[1..][i] == letters[i + 1];
      forall i | 0 <= i < |letters[1..]|
        ensures argv[t.arg + i] == ['-', letters[1..][i]]
      {
        assert argv[s.arg + (i + 1)] == ['-', letters[i + 1]];
      }
      SeparateFlags(opts, scans, argv, t, letters[1..]);
    }
  }

  /** Flags run together mean what they mean one by one. */
  lemma TogetherIsSeparate(opts: seq<Opt>, scans: Scans, together: seq<string>, separate: seq<string>, letters: string)
    requires |letters| >= 2 && forall i | 0 <= i < |letters| :: IsFlag(opts, letters[i])
    requires |together| >= 2 && together[1] == "-" + letters && Separate(separate, 1, letters)
    ensures var a := Calls(opts, scans, together, Start(), |letters|);
            var b := Calls(opts, scans, separate, Start(), |letters|);
            && a.Some? && b.Some? && a.value.1 == b.value.1 && |a.value.1| == |letters|
            && a.value.0 == State(2, 0, []) && b.value.0 == State(1 + |letters|, 0, [])
  {
    hide Calls, FirstShort;
    assert together[1][1..] == letters;
    assert IsFlag(opts, letters[0]);
    BunchOfFlags(opts, scans, together, Start(), 1);
    SeparateFlags(opts, scans, separate, Start(), letters);
    CodesCount(opts, letters);
  }

  lemma {:induction false} CodesCount(opts: seq<Opt>, letters: string)
    requires forall i | 0 <= i < |letters| :: IsFlag(opts, letters[i])
    ensures |Codes(opts, letters)| == |letters|
    decreases |letters|
  {
    hide IsFlag;
    if letters != "" {
      CodesCount(opts, letters[1..]);
    }
  }

  // ---- The assert in clarg_get_argument ----

  /** Only options with an argument have a place for it: the functions that add options see to that. */
  predicate Proper(opts: seq<Opt>) {
    forall i | 0 <= i < |opts| :: opts[i].buffer ==> opts[i].kind != NoArgument
  }

  lemma {:induction false} BunchNeverAborts(opts: seq<Opt>, scans: Scans, current: string, index: nat)
    requires Proper(opts) && index < |current|
    ensures var b := BunchFrom(opts, scans, current, index);
            !b.Aborts? && (b.WantsNext? ==> b.o.kind != NoArgument)
    decreases |current| - index
  {
    hide FirstShort;
    var k := FirstShort(opts, 0, current[index]);
    if k.Some? && opts[k.value].buffer && index + 1 < |current|
       && Taken(scans, opts[k.value], current[index + 1..]) == Some(-1) {
      BunchNeverAborts(opts, scans, current, index + 1);
    }
  }

  lemma OptionNeverAborts(scans: Scans, argv: seq<string>, s: State, o: Opt)
    requires o.buffer ==> o.kind != NoArgument
    ensures !WithOption(scans, argv, s, o).Aborted?
  {
  }

  /** The best match takes no argument, but the argument goes on behind its name. */
  predicate GoesOn(opts: seq<Opt>, current: string) {
    var k := Best(opts, |opts|, current);
    k.Some? && opts[k.value].kind == NoArgument && LongLength(opts[k.value], current) < |current|
  }

  lemma LongAborts(opts: seq<Opt>, scans: Scans, argv: seq<string>, s: State, current: string)
    requires Proper(opts) && |current| >= 2
    ensures ParsedLong(opts, scans, argv, s, current).Aborted? <==> |current| > 2 && GoesOn(opts, current)
  {
    hide LongLength, WithOption;
    var k := Best(opts, |opts|, current);
    if k.Some? {
      OptionNeverAborts(scans, argv, s.(pos := 0), opts[k.value]);
    }
  }

  lemma BunchFine(opts: seq<Opt>, scans: Scans, argv: seq<string>, s: State, current: string)
    requires Proper(opts) && |current| > 2 && s.pos < |current|
    ensures !ParsedBunch(opts, scans, argv, s, current).Aborted?
  {
    hide BunchFrom, WithOption;
    var index := if s.pos == 0 then 1 else s.pos;
    BunchNeverAborts(opts, scans, current, index);
    var b := BunchFrom(opts, scans, current, index);
    if b.WantsNext? {
      OptionNeverAborts(scans, argv, s.(pos := 0), b.o);
    }
  }

  /** "Internal error" is reached by an argument that a user can give: exactly when the best match of a
      long one is an option that takes no argument, and the argument goes on behind its name. */
  lemma AbortsExactly(opts: seq<Opt>, scans: Scans, argv: seq<string>, s: State)
    requires Proper(opts) && Placed(argv, s)
    ensures Parsed(opts, scans, argv, s).Aborted? <==>
              && s.arg < |argv| && At(argv[s.arg], 0) == '-' && At(argv[s.arg], 1) == '-' && argv[s.arg] != "--"
              && GoesOn(opts, argv[s.arg])
  {
    hide ParsedLong, ParsedBunch, WithOption, GoesOn;
    if s.arg < |argv| {
      var current := argv[s.arg];
      if At(current, 0) == '-' && At(current, 1) == '-' {
        LongAborts(opts, scans, argv, s, current);
        assert |current| == 2 ==> current == "--";
      } else if At(current, 0) == '-' && |current| == 2 {
        var k := FirstShort(opts, 0, current[1]);
        if k.Some? {
          OptionNeverAborts(scans, argv, s.(pos := 0), opts[k.value]);
        }
      } else if At(current, 0) == '-' && |current| > 2 {
        BunchFine(opts, scans, argv, s, current);
      }
    }
  }

  // ---- The parser ----

  /** ClArgHeader. The list of options is kept as a sequence. */
  class Header {
    const argv: seq<string>
    const scans: Scans
    var options: seq<Opt>
    var currentArg: nat
    var currentPos: nat
    var unprocessedArgv: array<string>
    var unprocessedArgc: nat

    ghost function Now(): State
      reads this, unprocessedArgv
      requires unprocessedArgc <= unprocessedArgv.Length
    {
      State(currentArg, currentPos, unprocessedArgv[..unprocessedArgc])
    }

    ghost predicate Valid()
      reads this, unprocessedArgv
    {
      unprocessedArgv.Length == |argv| && unprocessedArgc <= unprocessedArgv.Length && Inv(argv, Now())
    }

    /** dagclarg_init. */
    constructor (argv: seq<string>, scans: Scans)
      ensures Valid() && fresh(unprocessedArgv) && Now() == Start()
      ensures options == [] && this.argv == argv && this.scans == scans
    {
      this.argv, this.scans, options := argv, scans, [];
      currentArg, currentPos, unprocessedArgc := 1, 0, 0;
      unprocessedArgv := new string[|argv|](_ => "");
    }

    /** dagclarg_reset. */
    method ResetParser()
      requires Valid()
      modifies this
      ensures Valid() && Now() == Start() && options == old(options) && fresh(unprocessedArgv)
    {
      currentArg, currentPos, unprocessedArgc := 1, 0, 0;
      unprocessedArgv := new string[|argv|](_ => "");
    }

    /** clarg_match_longopt: the length, 0 when nothing matches. */
    method MatchLongopt(o: Opt, argument: string) returns (n: nat)
      ensures n == LongLength(o, argument)
    {
      assert o.longs[0..] == o.longs;
      for index := 0 to |o.longs|
        invariant MatchLong(o.longs, argument) == MatchLong(o.longs[index..], argument)
      {
        assert o.longs[index..][1..] == o.longs[index + 1..];
        if o.longs[index] != "" && o.longs[index] <= argument {
          return |o.longs[index]|;
        }
      }
      return 0;
    }

    /** The loop over long options. */
    method BestLong(current: string) returns (best: Option<nat>)
      ensures best == Best(options, |options|, current)
    {
      hide MatchLong, LongLength;
      best := None;
      var length := 0;
      for i := 0 to |options|
        invariant best == Best(options, i, current)
        invariant length == if best.Some? then LongLength(options[best.value], current) else 0
      {
        var n := MatchLongopt(options[i], current);
        if n > length {
          best, length := Some(i), n;
        }
      }
    }

    /** The loops over options that look for a letter. */
    method FindShort(c: char) returns (r: Option<nat>)
      ensures r == FirstShort(options, 0, c)
    {
      for i := 0 to |options|
        invariant FirstShort(options, 0, c) == FirstShort(options, i, c)
      {
        if MatchShort(options[i], c) {
          return Some(i);
        }
      }
      return None;
    }

    /** The loop over the letters of a bunch. */
    method ReadBunch(current: string, index: nat) returns (b: Bunch)
      requires index < |current|
      ensures b == BunchFrom(options, scans, current, index)
    {
      hide FirstShort, Taken;
      for i := index to |current|
        invariant i < |current|
        invariant BunchFrom(options, scans, current, index) == BunchFrom(options, scans, current, i)
      {
        var k := FindShort(current[i]);
        if k.None? {
          return Unknown;
        }
        var o := options[k.value];
        if !o.buffer {
          return Flag(o, i);
        }
        if i + 1 == |current| {
          return WantsNext(o);
        }
        var taken := Taken(scans, o, current[i + 1..]);
        if taken.None? {
          return Aborts;
        } else if taken == Some(1) {
          return Joined(o);
        }
      }
      assert false;
      b := Unknown;
    }

    /** The part behind the search: `option` is what was found, if anything. */
    method Conclude(current: string, option: Option<Opt>) returns (ret: int, code: Option<int>, aborted: bool)
      requires Valid() && currentArg < |argv| && current == argv[currentArg]
      requires option.Some? ==> currentPos == 0
      modifies `currentArg, `currentPos, `unprocessedArgc, unprocessedArgv
      ensures unprocessedArgc <= unprocessedArgv.Length
      ensures var a := if option.Some? then WithOption(scans, argv, old(Now()), option.value)
                       else WithoutOption(old(Now()), current);
              if aborted then a.Aborted? else a == Answer(Now(), ret, code)
    {
      aborted := false;
      if option.Some? {
        code := Some(option.value.code);
        if option.value.buffer || option.value.kind != NoArgument {
          currentArg := currentArg + 1;
          if |argv| <= currentArg {
            return -1, code, false;
          }
          var taken := Taken(scans, option.value, argv[currentArg]);
          if taken.None? {
            return 0, None, true;
          }
          if taken == Some(-1) {
            return -1, code, false;
          }
        }
      } else {
        code := Some(-1);
        SubShorter(Now().unprocessed, Passed(argv, Now()));
        ghost var was := unprocessedArgv[..unprocessedArgc];
        unprocessedArgv[unprocessedArgc] := current;
        unprocessedArgc := unprocessedArgc + 1;
        assert unprocessedArgv[..unprocessedArgc] == was + [current];
        currentPos := 0;
      }
      currentArg := currentArg + 1;
      ret := 1;
    }

    /** The part for long options. */
    method ParseLong(current: string) returns (ret: int, code: Option<int>, aborted: bool)
      requires Valid() && currentArg < |argv| && current == argv[currentArg] && |current| >= 2
      modifies `currentArg, `currentPos, `unprocessedArgc, unprocessedArgv
      ensures unprocessedArgc <= unprocessedArgv.Length
      ensures var a := ParsedLong(options, scans, argv, old(Now()), current);
              if aborted then a.Aborted? else a == Answer(Now(), ret, code)
    {
      hide Best, Taken, LongLength, Sub, WithOption;
      currentPos := 0;
      if |current| == 2 {
        currentArg := currentArg + 1;
        return 0, None, false;
      }
      var option: Option<Opt> := None;
      var best := BestLong(current);
      if best.Some? {
        option := Some(options[best.value]);
        var n := MatchLongopt(option.value, current);
        if n < |current| {
          var taken := Taken(scans, option.value, current[n..]);
          if taken.None? {
            return 0, None, true;
          }
          if taken == Some(1) {
            currentArg := currentArg + 1;
            return 1, Some(option.value.code), false;
          }
        }
      }
      ret, code, aborted := Conclude(current, option);
    }

    /** The part for a bunch of letters. */
    method ParseBunch(current: string) returns (ret: int, code: Option<int>, aborted: bool)
      requires Valid() && currentArg < |argv| && current == argv[currentArg] && |current| > 2
      modifies `currentArg, `currentPos, `unprocessedArgc, unprocessedArgv
      ensures unprocessedArgc <= unprocessedArgv.Length
      ensures var a := ParsedBunch(options, scans, argv, old(Now()), current);
              if aborted then a.Aborted? else a == Answer(Now(), ret, code)
    {
      hide BunchFrom, Sub, WithOption;
      var b := ReadBunch(current, if currentPos == 0 then 1 else currentPos);
      if b.Aborts? {
        return 0, None, true;
      }
      if b.Flag? && b.at + 1 != |current| {
        currentPos := b.at + 1;
        return 1, Some(b.o.code), false;
      }
      currentPos := 0;
      if b.WantsNext? {
        ret, code, aborted := Conclude(current, Some(b.o));
      } else {
        currentArg := currentArg + 1;
        ret, aborted := 1, false;
        code := Some(-1);
        if !b.Unknown? {
          code := Some(b.o.code);
        }
      }
    }

    /** dagclarg_parse. */
    method Parse() returns (ret: int, code: Option<int>, aborted: bool)
      requires Valid()
      modifies `currentArg, `currentPos, `unprocessedArgc, unprocessedArgv
      ensures unprocessedArgc <= unprocessedArgv.Length
      ensures var a := Parsed(options, scans, argv, old(Now()));
              if aborted then a.Aborted? else a == Answer(Now(), ret, code) && Valid()
    {
      hide FirstShort, Sub, WithOption, ParsedLong, ParsedBunch;
      ghost var s := Now();
      if currentArg >= |argv| {
        return 0, None, false;
      }
      var current := argv[currentArg];
      if At(current, 0) == '-' && At(current, 1) == '-' {
        ret, code, aborted := ParseLong(current);
      } else if At(current, 0) == '-' && |current| > 2 {
        ret, code, aborted := ParseBunch(current);
      } else {
        var option: Option<Opt> := None;
        if At(current, 0) == '-' && |current| == 2 {
          currentPos := 0;
          var k := FindShort(current[1]);
          if k.Some? {
            option := Some(options[k.value]);
          }
        }
        ret, code, aborted := Conclude(current, option);
      }
      if !aborted {
        CallInv(options, scans, argv, s);
      }
    }
  }
}
