/** Stream descriptions: protocol[:query][,name=value]... */
module Descr {
  import opened Wrappers

  datatype Pair = Pair(name: string, value: string)

  datatype Description = Description(protocol: string, query: Option<string>, opts: seq<Pair>)

  // ---- The text of a description ----

  function Cons(c: char, s: string): string {
    [c] + s
  }

  function Printed(opts: seq<Pair>): string {
    if opts == [] then ""
    else Cons(',', opts[0].name + Cons('=', opts[0].value + Printed(opts[1..])))
  }

  function Print(d: Description): string {
    d.protocol + if d.query.Some? then Cons(':', d.query.value + Printed(d.opts)) else Printed(d.opts)
  }

  predicate Free(s: string, stops: set<char>) {
    forall i | 0 <= i < |s| :: s[i] !in stops
  }

  predicate GoodOpts(opts: seq<Pair>) {
    forall i | 0 <= i < |opts| :: Free(opts[i].name, {'='}) && Free(opts[i].value, {','})
  }

  /** No part holds what would end it. */
  predicate WellFormed(d: Description) {
    && Print(d) != ""
    && Free(d.protocol, {':', ','})
    && (d.query.Some? ==> Free(d.query.value, {','}))
    && GoodOpts(d.opts)
  }

  // ---- Reading it ----

  /** How far a scan goes that stops at certain characters and at the end. */
  function Scan(s: string, stops: set<char>): (n: nat)
    ensures n <= |s| && Free(s[..n], stops) && (n < |s| ==> s[n] in stops)
  {
    if s == "" || s[0] in stops then 0 else 1 + Scan(s[1..], stops)
  }

  function Before(s: string, stops: set<char>): string {
    s[..Scan(s, stops)]
  }

  function Rest(s: string, stops: set<char>): (r: string)
    ensures |r| <= |s|
  {
    s[Scan(s, stops)..]
  }

  function Tail(s: string): (r: string)
    requires s != ""
    ensures |r| == |s| - 1
  {
    s[1..]
  }

  predicate Begins(s: string, stops: set<char>) {
    s != "" ==> s[0] in stops
  }

  function More(o: Pair, rest: Option<seq<Pair>>): Option<seq<Pair>> {
    match rest
    case None => None
    case Some(opts) => Some([o] + opts)
  }

  /** The options, from a comma or the end on. */
  function ReadOpts(s: string): Option<seq<Pair>>
    decreases |s|
  {
    if s == "" then Some([])
    else
      var name, t := Before(Tail(s), {'='}), Rest(Tail(s), {'='});
      if t == "" then None
      else
        var value, u := Before(Tail(t), {','}), Rest(Tail(t), {','});
        More(Pair(name, value), ReadOpts(u))
  }

  function Read(s: string): Option<Description> {
    if s == "" then None
    else
      var protocol, t := Before(s, {':', ','}), Rest(s, {':', ','});
      if t == "" || t[0] == ',' then WithOpts(protocol, None, t)
      else WithOpts(protocol, Some(Before(Tail(t), {','})), Rest(Tail(t), {','}))
  }

  function WithOpts(protocol: string, query: Option<string>, s: string): Option<Description> {
    match ReadOpts(s)
    case None => None
    case Some(opts) => Some(Description(protocol, query, opts))
  }

  // ---- Printing and reading are inverse ----

  lemma {:induction false} ScanStops(p: string, rest: string, stops: set<char>)
    requires Free(p, stops) && Begins(rest, stops)
    ensures Scan(p + rest, stops) == |p|
    decreases |p|
  {
    if p == "" {
      assert p + rest == rest;
    } else {
      assert (p + rest)[1..] == p[1..] + rest;
      ScanStops(p[1..], rest, stops);
    }
  }

  lemma CutIs(p: string, rest: string, stops: set<char>)
    requires Free(p, stops) && Begins(rest, stops)
    ensures Before(p + rest, stops) == p && Rest(p + rest, stops) == rest
  {
    ScanStops(p, rest, stops);
  }

  lemma CutBack(s: string, stops: set<char>)
    ensures Before(s, stops) + Rest(s, stops) == s
    ensures Free(Before(s, stops), stops) && Begins(Rest(s, stops), stops)
  {
  }

  lemma TailOfCons(c: char, s: string)
    ensures Cons(c, s) != "" && Cons(c, s)[0] == c && Tail(Cons(c, s)) == s
  {
  }

  lemma ConsOfTail(s: string)
    requires s != ""
    ensures Cons(s[0], Tail(s)) == s
  {
  }

  lemma OneRead(o: Pair, rest: string)
    requires Free(o.name, {'='}) && Free(o.value, {','}) && Begins(rest, {','})
    ensures ReadOpts(Cons(',', o.name + Cons('=', o.value + rest))) == More(o, ReadOpts(rest))
  {
    hide Before, Rest, Tail, Cons, Free, Scan, More;
    var u := o.value + rest;
    TailOfCons('=', u);
    TailOfCons(',', o.name + Cons('=', u));
    CutIs(o.name, Cons('=', u), {'='});
    CutIs(o.value, rest, {','});
  }

  lemma PrintedBegins(opts: seq<Pair>)
    ensures Begins(Printed(opts), {','})
  {
  }

  lemma {:induction false} PrintedIsRead(opts: seq<Pair>)
    requires GoodOpts(opts)
    ensures ReadOpts(Printed(opts)) == Some(opts)
    decreases |opts|
  {
    if opts != [] {
      PrintedIsRead(opts[1..]);
      PrintedBegins(opts[1..]);
      assert [opts[0]] + opts[1..] == opts;
      assert Printed(opts) == Cons(',', opts[0].name + Cons('=', opts[0].value + Printed(opts[1..])));
      hide ReadOpts, Free, Cons, Printed, Begins;
      OneRead(opts[0], Printed(opts[1..]));
    }
  }

  lemma PrintIsRead(d: Description)
    requires WellFormed(d)
    ensures Read(Print(d)) == Some(d)
  {
    hide Before, Rest, Tail, Cons, Free, Scan, ReadOpts, Printed, GoodOpts;
    var rest := Printed(d.opts);
    PrintedIsRead(d.opts);
    PrintedBegins(d.opts);
    if d.query.None? {
      CutIs(d.protocol, rest, {':', ','});
    } else {
      var t := d.query.value + rest;
      TailOfCons(':', t);
      CutIs(d.protocol, Cons(':', t), {':', ','});
      CutIs(d.query.value, rest, {','});
    }
  }

  /** The first option of a text, and the text behind it. */
  lemma OneBack(s: string)
    requires s != "" && s[0] == ',' && ReadOpts(s).Some?
    ensures var t := Rest(Tail(s), {'='});
            && t != "" && t[0] == '='
            && var o, u := Pair(Before(Tail(s), {'='}), Before(Tail(t), {','})), Rest(Tail(t), {','});
            && |u| < |s| && Begins(u, {','}) && Free(o.name, {'='}) && Free(o.value, {','})
            && ReadOpts(u).Some? && ReadOpts(s) == Some([o] + ReadOpts(u).value)
            && s == Cons(',', o.name + Cons('=', o.value + u))
  {
    hide Before, Rest, Tail, Cons, Free, Scan;
    var t := Rest(Tail(s), {'='});
    CutBack(Tail(s), {'='});
    CutBack(Tail(t), {','});
    ConsOfTail(t);
    ConsOfTail(s);
  }

  lemma OnePrinted(o: Pair, opts: seq<Pair>)
    requires Free(o.name, {'='}) && Free(o.value, {','}) && GoodOpts(opts)
    ensures Printed([o] + opts) == Cons(',', o.name + Cons('=', o.value + Printed(opts))) && GoodOpts([o] + opts)
  {
    hide Free, Cons;
    assert ([o] + opts)[1..] == opts;
  }

  lemma {:induction false} ReadIsPrinted(s: string)
    requires Begins(s, {','}) && ReadOpts(s).Some?
    ensures Printed(ReadOpts(s).value) == s && GoodOpts(ReadOpts(s).value)
    decreases |s|
  {
    if s != "" {
      hide ReadOpts, Before, Rest, Tail, Cons, Free, Scan;
      OneBack(s);
      var t := Rest(Tail(s), {'='});
      var u := Rest(Tail(t), {','});
      ReadIsPrinted(u);
      hide Printed, GoodOpts, Begins;
      OnePrinted(Pair(Before(Tail(s), {'='}), Before(Tail(t), {','})), ReadOpts(u).value);
    } else {
      assert ReadOpts(s) == Some([]);
    }
  }

  /** Every text that is accepted prints again as it was, and its parts hold nothing that ends them. */
  lemma AcceptedPrintsBack(s: string)
    requires Read(s).Some?
    ensures Print(Read(s).value) == s && WellFormed(Read(s).value)
  {
    hide Before, Rest, Tail, Cons, Free, Scan, ReadOpts, Printed, GoodOpts;
    var t := Rest(s, {':', ','});
    CutBack(s, {':', ','});
    if t == "" || t[0] == ',' {
      ReadIsPrinted(t);
    } else {
      CutBack(Tail(t), {','});
      ReadIsPrinted(Rest(Tail(t), {','}));
      ConsOfTail(t);
    }
  }

  /** A description survives printing and parsing exactly when it is well formed. */
  lemma RoundTripExactly(d: Description)
    ensures Read(Print(d)) == Some(d) <==> WellFormed(d)
  {
    hide Read, Print, WellFormed;
    if WellFormed(d) {
      PrintIsRead(d);
    }
    if Read(Print(d)) == Some(d) {
      AcceptedPrintsBack(Print(d));
    }
  }

  /** The texts that are accepted are the printed forms of well-formed descriptions. */
  lemma AcceptedExactly(s: string)
    ensures Read(s).Some? <==> exists d :: WellFormed(d) && Print(d) == s
  {
    hide Read, Print, WellFormed;
    if Read(s).Some? {
      AcceptedPrintsBack(s);
    }
    if d :| WellFormed(d) && Print(d) == s {
      PrintIsRead(d);
    }
  }

  // ---- The parser ----

  /** camio_opt_t. */
  class Opt {
    var name: string
    var value: string
    var next: Opt?

    /** calloc. */
    constructor ()
      ensures name == "" && value == "" && next == null
    {
      name, value, next := "", "", null;
    }
  }

  /** The i-th node, or NULL behind the last one. */
  function NodeAt(nodes: seq<Opt>, i: nat): Opt? {
    if i < |nodes| then nodes[i] else null
  }

  /** The nodes are linked in this order, the last one to NULL. */
  ghost predicate Linked(nodes: seq<Opt>)
    reads nodes
  {
    && (forall i, j | 0 <= i < j < |nodes| :: nodes[i] != nodes[j])
    && forall k | 0 <= k < |nodes| :: nodes[k].next == NodeAt(nodes, k + 1)
  }

  ghost function Contents(nodes: seq<Opt>): (r: seq<Pair>)
    reads nodes
    ensures |r| == |nodes|
  {
    seq(|nodes|, i requires 0 <= i < |nodes| reads nodes => Pair(nodes[i].name, nodes[i].value))
  }

  /** A program that starts at `head` and follows the links meets these nodes, one after the other, and
      then NULL. */
  ghost predicate Followed(head: Opt?, nodes: seq<Opt>)
    reads nodes
  {
    if nodes == [] then head == null else head == nodes[0] && Followed(nodes[0].next, nodes[1..])
  }

  lemma {:induction false} LinkedIsFollowed(nodes: seq<Opt>)
    requires Linked(nodes)
    ensures Followed(NodeAt(nodes, 0), nodes)
  {
    if nodes != [] {
      var rest := nodes[1..];
      forall k | 0 <= k < |rest|
        ensures rest[k].next == NodeAt(rest, k + 1)
      {
        assert rest[k] == nodes[k + 1] && nodes[k + 1].next == NodeAt(nodes, k + 1 + 1);
      }
      assert forall i, j | 0 <= i < j < |rest| :: rest[i] == nodes[i + 1] && rest[j] == nodes[j + 1];
      assert Linked(rest);
      LinkedIsFollowed(rest);
      assert nodes[0].next == NodeAt(nodes, 1) == NodeAt(rest, 0);
    }
  }

  /** Some options are read from `start` up to `head`. */
  predicate Reached(text: string, start: nat, head: nat, opts: seq<Pair>)
    requires start <= |text| && head <= |text|
  {
    ReadOpts(text[start..]) == match ReadOpts(text[head..])
                               case None => None
                               case Some(rest) => Some(opts + rest)
  }

  /** At `head` an option is read that ends at `next`. */
  predicate OptionAt(text: string, head: nat, o: Pair, next: nat)
    requires head <= |text| && next <= |text|
  {
    ReadOpts(text[head..]) == More(o, ReadOpts(text[next..]))
  }

  lemma ReachedStart(text: string, start: nat)
    requires start <= |text|
    ensures Reached(text, start, start, [])
  {
    hide ReadOpts;
    if ReadOpts(text[start..]).Some? {
      assert [] + ReadOpts(text[start..]).value == ReadOpts(text[start..]).value;
    }
  }

  lemma ReachedMore(text: string, start: nat, head: nat, opts: seq<Pair>, o: Pair, next: nat)
    requires start <= |text| && head <= |text| && next <= |text|
    requires Reached(text, start, head, opts) && OptionAt(text, head, o, next)
    ensures Reached(text, start, next, opts + [o])
  {
    hide ReadOpts;
    if ReadOpts(text[next..]).Some? {
      var rest := ReadOpts(text[next..]).value;
      assert opts + ([o] + rest) == (opts + [o]) + rest;
    }
  }

  lemma ReachedEnd(text: string, start: nat, opts: seq<Pair>)
    requires start <= |text| && Reached(text, start, |text|, opts)
    ensures ReadOpts(text[start..]) == Some(opts)
  {
    assert text[|text|..] == "" && opts + [] == opts;
  }

  lemma ReachedError(text: string, start: nat, head: nat, opts: seq<Pair>)
    requires start <= |text| && head <= |text| && Reached(text, start, head, opts) && ReadOpts(text[head..]) == None
    ensures ReadOpts(text[start..]) == None
  {
    hide ReadOpts;
  }

  lemma NothingLeft()
    ensures ReadOpts("") == Some([])
  {
  }

  /** Reading an option that begins behind the comma at `head` and whose name ends at `mid`. */
  lemma ReadAt(text: string, head: nat, mid: nat)
    requires head < |text| && mid <= |text| && text[mid..] == Rest(text[head + 1..], {'='})
    ensures ReadOpts(text[head..]) ==
            if mid == |text| then None
            else More(Pair(Before(text[head + 1..], {'='}), Before(text[mid + 1..], {','})),
                      ReadOpts(Rest(text[mid + 1..], {','})))
  {
    hide Before, Rest, Scan, More;
    assert Tail(text[head..]) == text[head + 1..];
    if mid < |text| {
      assert Tail(text[mid..]) == text[mid + 1..];
    }
  }

  datatype Parse = Parsed | Incomplete

  /** A character of a C string: the terminator is behind the last one. */
  function Peek(s: string, i: nat): char
    requires i <= |s|
  {
    if i < |s| then s[i] else '\0'
  }

  predicate CString(s: string) {
    '\0' !in s
  }

  lemma PeekEnd(s: string, i: nat)
    requires CString(s) && i <= |s|
    ensures Peek(s, i) == '\0' <==> i == |s|
  {
  }

  /** The scanning loops. */
  method Skip(s: string, head: nat, stops: set<char>) returns (h: nat)
    requires head <= |s| && CString(s) && '\0' !in stops
    ensures head <= h <= |s| && (h < |s| ==> s[h] in stops)
    ensures s[head..h] == Before(s[head..], stops) && s[h..] == Rest(s[head..], stops)
  {
    h := head;
    while Peek(s, h) !in stops && Peek(s, h) != '\0'
      invariant head <= h <= |s|
      invariant Scan(s[head..], stops) == h - head + Scan(s[h..], stops)
      decreases |s| - h
    {
      assert s[h..][1..] == s[h + 1..];
      h := h + 1;
    }
  }

  /** One turn of the loop over options: name up to '=', value up to ',' or the end. */
  method OneOption(text: string, head: nat) returns (ok: bool, name: string, value: string, next: nat)
    requires head < |text| && CString(text)
    ensures head < next <= |text|
    ensures if ok then OptionAt(text, head, Pair(name, value), next) else ReadOpts(text[head..]) == None
  {
    hide Before, Rest, Scan, More, ReadOpts;
    name, value := "", "";
    next := Skip(text, head + 1, {'='});
    ReadAt(text, head, next);
    if Peek(text, next) == '\0' {
      return false, name, value, next;
    }
    name := text[head + 1..next];
    var tail := next + 1;
    next := Skip(text, tail, {','});
    value := text[tail..next];
    ok := true;
  }

  /** camio_descr_t. */
  class Descriptor {
    var protocol: Option<string>
    var query: Option<string>
    var optHead: Opt?
    ghost var nodes: seq<Opt>

    ghost predicate Valid()
      reads this, nodes
    {
      Linked(nodes) && optHead == NodeAt(nodes, 0)
    }

    /** camio_descr_construct. */
    constructor ()
      ensures Valid() && protocol == None && query == None && optHead == null
    {
      protocol, query, optHead, nodes := None, None, null, [];
    }

    /** camio_descr_parse. The options are attached only to a record that has none: into one that was
        used before, the new ones are read and lost. */
    method Parse(text: string) returns (r: Parse)
      requires Valid() && CString(text)
      modifies this
      ensures Valid()
      ensures r == if Read(text).Some? then Parsed else Incomplete
      ensures r == Parsed ==>
                && protocol == Some(Read(text).value.protocol)
                && query == (if Read(text).value.query.Some? then Read(text).value.query else old(query))
                && Contents(nodes) == if old(optHead) == null then Read(text).value.opts else old(Contents(nodes))
      ensures old(optHead) != null ==> optHead == old(optHead)
    {
      hide Before, Rest, Scan, ReadOpts, CString, Linked;
      PeekEnd(text, 0);
      if Peek(text, 0) == '\0' {
        return Incomplete;
      }
      assert text[0..] == text;
      var head := Skip(text, 0, {':', ','});
      protocol := Some(text[..head]);
      PeekEnd(text, head);
      if Peek(text, head) == '\0' {
        assert Rest(text, {':', ','}) == "";
        NothingLeft();
        return Parsed;
      }
      if Peek(text, head) != ',' {
        assert Tail(text[head..]) == text[head + 1..];
        var tail := head + 1;
        head := Skip(text, tail, {','});
        query := Some(text[tail..head]);
      }
      ghost var list;
      r, list := ParseOptions(text, head);
      if old(optHead) == null {
        nodes := list;
      }
    }

    /** `list` is linked up to `prev` and hangs on the record unless that had options, `had`, before. */
    ghost predicate Building(list: seq<Opt>, prev: Opt?, had: Opt?)
      reads this, list
    {
      && Linked(list)
      && prev == (if list == [] then null else list[|list| - 1])
      && optHead == if had == null then NodeAt(list, 0) else had
    }

    /** A new node, behind `prev` if there is one. */
    method AddOption(name: string, value: string, prev: Opt?, ghost list: seq<Opt>, ghost had: Opt?) returns (opt: Opt)
      requires Building(list, prev, had)
      modifies `optHead, if prev == null then {} else {prev}
      ensures fresh(opt) && Building(list + [opt], opt, had)
      ensures Contents(list + [opt]) == old(Contents(list)) + [Pair(name, value)]
    {
      opt := new Opt();
      if optHead == null {
        optHead := opt;
      }
      opt.name := name;
      opt.value := value;
      if prev != null {
        prev.next := opt;
      }
    }

    /** Where the loop over options is when the nodes in `list` were read. */
    ghost predicate Progress(text: string, start: nat, head: nat, list: seq<Opt>, prev: Opt?, had: Opt?)
      requires start <= |text| && head <= |text|
      reads this, list
    {
      Building(list, prev, had) && Reached(text, start, head, Contents(list))
    }

    lemma ProgressStart(text: string, start: nat)
      requires start <= |text|
      ensures Progress(text, start, start, [], null, optHead)
    {
      ReachedStart(text, start);
      hide Reached;
      assert Contents([]) == [];
    }

    lemma ProgressIsBuilt(text: string, start: nat, head: nat, list: seq<Opt>, prev: Opt?, had: Opt?)
      requires start <= |text| && head <= |text| && Progress(text, start, head, list, prev, had)
      ensures Linked(list) && optHead == if had == null then NodeAt(list, 0) else had
      ensures prev == null || prev in list
      ensures head == |text| ==> ReadOpts(text[start..]) == Some(Contents(list))
    {
      hide ReadOpts, Reached, Contents, Linked;
      if head == |text| {
        ReachedEnd(text, start, Contents(list));
      }
    }

    /** One turn of the loop over options: it has read `opts` when it begins. */
    method OptionTurn(text: string, ghost start: nat, head: nat, prev: Opt?, ghost list: seq<Opt>, ghost had: Opt?)
      returns (ok: bool, next: nat, opt: Opt?)
      requires CString(text) && start <= |text| && head < |text|
      requires Progress(text, start, head, list, prev, had)
      modifies `optHead, if prev == null then {} else {prev}
      ensures head < next <= |text|
      ensures !ok ==> Progress(text, start, head, list, prev, had) && ReadOpts(text[start..]) == None
      ensures ok ==> opt != null && fresh(opt) && Progress(text, start, next, list + [opt], opt, had)
    {
      hide ReadOpts, Linked, Contents, Building, NodeAt, Reached, OptionAt, CString;
      opt := null;
      var name, value;
      ok, name, value, next := OneOption(text, head);
      if !ok {
        ReachedError(text, start, head, Contents(list));
      } else {
        ReachedMore(text, start, head, Contents(list), Pair(name, value), next);
        opt := AddOption(name, value, prev, list, had);
      }
    }

    /** The part behind the label parse_options: `list` are the new nodes. */
    method ParseOptions(text: string, start: nat) returns (r: Parse, ghost list: seq<Opt>)
      requires CString(text) && start <= |text|
      modifies `optHead
      ensures fresh(list) && Linked(list)
      ensures optHead == if old(optHead) == null then NodeAt(list, 0) else old(optHead)
      ensures r == if ReadOpts(text[start..]).Some? then Parsed else Incomplete
      ensures r == Parsed ==> Contents(list) == ReadOpts(text[start..]).value
    {
      var head := start;
      var prev: Opt? := null;
      var done := false;
      list := [];
      ghost var had := optHead;
      hide ReadOpts, Linked, Contents, Progress, NodeAt, CString;
      ProgressStart(text, start);
      while !done
        invariant head <= |text| && (done ==> head == |text|)
        invariant fresh(list) && Progress(text, start, head, list, prev, had)
        decreases |text| - head, !done
      {
        ProgressIsBuilt(text, start, head, list, prev, had);
        PeekEnd(text, head);
        if Peek(text, head) == '\0' {
          break;
        }
        var ok, next, opt := OptionTurn(text, start, head, prev, list, had);
        if !ok {
          ProgressIsBuilt(text, start, head, list, prev, had);
          return Incomplete, list;
        }
        prev, head, list := opt, next, list + [opt];
        PeekEnd(text, head);
        done := Peek(text, head) == '\0';
      }
      PeekEnd(text, head);
      ProgressIsBuilt(text, start, head, list, prev, had);
      r := Parsed;
    }
  }
}
