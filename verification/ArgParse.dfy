/**
 The argument iterator of includes/ty_argparse.h. Options follow section 12.2 of POSIX.1-2017 XBD, with long
 options, and options after operands.
 */
module ArgParse {

  datatype Arg = Short(c: char) | Long(text: string) | Positional(text: string) | Done

  /* ---- What is to be delivered ---- */

  /** The options of a cluster, from character i on. */
  function Cluster(a: string, i: nat): seq<Arg>
    decreases |a| - i
  {
    if i >= |a| then [] else [Short(a[i])] + Cluster(a, i + 1)
  }

  /** All options and operands of the arguments, from left to right; behind "--" there are only operands. */
  function Flatten(args: seq<string>, onlyPos: bool): seq<Arg> {
    if args == [] then []
    else
      var a, rest := args[0], args[1..];
      if onlyPos || a == "" || a[0] != '-' || a == "-" then [Positional(a)] + Flatten(rest, onlyPos)
      else if a == "--" then Flatten(rest, true)
      else if a[1] == '-' then [Long(a[2..])] + Flatten(rest, false)
      else Cluster(a, 1) + Flatten(rest, false)
  }

  /** Options come in any order with operands: before "--", arguments do not depend on each other. */
  lemma {:induction false} FlattenSplits(pre: seq<string>, post: seq<string>)
    requires "--" !in pre
    ensures Flatten(pre + post, false) == Flatten(pre, false) + Flatten(post, false)
  {
    if pre == [] {
      assert pre + post == post;
    } else {
      assert (pre + post)[1..] == pre[1..] + post;
      FlattenSplits(pre[1..], post);
    }
  }

  /** Behind the first "--", every argument is an operand, and the "--" itself is none. */
  lemma {:induction false} FlattenTerminated(pre: seq<string>, post: seq<string>)
    requires "--" !in pre
    ensures Flatten(pre + (["--"] + post), false) ==
      Flatten(pre, false) + seq(|post|, i requires 0 <= i < |post| => Positional(post[i]))
  {
    FlattenSplits(pre, ["--"] + post);
    assert (["--"] + post)[1..] == post;
    FlattenOperands(post);
  }

  lemma {:induction false} FlattenOperands(args: seq<string>)
    ensures Flatten(args, true) == seq(|args|, i requires 0 <= i < |args| => Positional(args[i]))
  {
    if args != [] { FlattenOperands(args[1..]); }
  }

  /** One argument before "--": an operand, a cluster of options, or a long option. */
  lemma FlattenOne(a: string)
    requires a != "--"
    ensures Flatten([a], false) ==
      if a == "" || a[0] != '-' || a == "-" then [Positional(a)]
      else if a[1] != '-' then seq(|a| - 1, i requires 0 <= i < |a| - 1 => Short(a[i + 1]))
      else [Long(a[2..])]
  {
    if |a| > 1 {
      ClusterLength(a, 1);
      forall i | 0 <= i < |a| - 1 ensures Cluster(a, 1)[i] == Short(a[i + 1]) { ClusterAt(a, 1, i); }
      assert a[0] == '-' && a[1] != '-' ==> Flatten([a], false) == Cluster(a, 1);
    }
  }

  lemma {:induction false} ClusterLength(a: string, i: nat)
    requires i <= |a|
    ensures |Cluster(a, i)| == |a| - i
    decreases |a| - i
  {
    if i < |a| { ClusterLength(a, i + 1); }
  }

  lemma {:induction false} ClusterAt(a: string, i: nat, k: nat)
    requires i + k < |a|
    ensures k < |Cluster(a, i)| && Cluster(a, i)[k] == Short(a[i + k])
    decreases k
  {
    ClusterLength(a, i);
    if k > 0 { ClusterAt(a, i + 1, k - 1); }
  }

  /* ---- The iterator ---- */

  datatype State = State(args: nat, shortIndex: nat, onlyPos: bool)

  /** Characters `from` to `to` of argument `arg`. */
  datatype Span = Span(arg: nat, from: nat, to: nat)

  datatype Kind = ShortOption | LongOption | Operand | Value
  datatype Delivery = Nothing | Item(kind: Kind, span: Span)

  /** Inside a cluster, there is a character left at the cursor. */
  predicate Sound(argv: seq<string>, s: State) {
    && s.args <= |argv|
    && (s.shortIndex > 0 ==>
          && s.args < |argv| && s.shortIndex < |argv[s.args]|
          && argv[s.args][0] == '-' && argv[s.args][1] != '-')
    && (s.onlyPos ==> s.shortIndex == 0)
  }

  function First(argv: seq<string>): (s: State)
    ensures Sound(argv, s)
  {
    State(if argv == [] then 0 else 1, 0, false)
  }

  function Whole(argv: seq<string>, s: State, kind: Kind): (State, Delivery)
    requires s.args < |argv|
  {
    (s.(args := s.args + 1), Item(kind, Span(s.args, 0, |argv[s.args]|)))
  }

  /** arg_next; the recursive calls are its jumps. */
  function Next(argv: seq<string>, s: State): (State, Delivery)
    requires Sound(argv, s)
    decreases |argv| - s.args, if s.shortIndex == 0 then 1 else 0
  {
    if s.args == |argv| then (s, Nothing)
    else if s.onlyPos then Whole(argv, s, Operand)
    else
      var a := argv[s.args];
      if s.shortIndex > 0 then
        var i := s.shortIndex + 1;
        (if i == |a| then State(s.args + 1, 0, false)
            else s.(shortIndex := i), Item(ShortOption, Span(s.args, i - 1, i)))
      else if a != "" && a[0] == '-' then
        if |a| == 1 then Whole(argv, s, Operand)
        else if a[1] == '-' then
          if |a| == 2 then Next(argv, State(s.args + 1, 0, true))
          else (State(s.args + 1, 0, false), Item(LongOption, Span(s.args, 2, |a|)))
        else Next(argv, s.(shortIndex := 1))
      else Whole(argv, s, Operand)
  }

  /** arg_next_value */
  function NextValue(argv: seq<string>, s: State): (State, Delivery)
    requires Sound(argv, s)
  {
    if s.shortIndex > 0 then (State(s.args + 1, 0, s.onlyPos), Item(Value, Span(s.args, s.shortIndex, |argv[s.args]|)))
    else if s.args == |argv| then (s, Nothing)
    else Whole(argv, s, Value)
  }

  predicate Inside(argv: seq<string>, x: Span) {
    x.arg < |argv| && x.from <= x.to <= |argv[x.arg]|
  }

  function TextOf(argv: seq<string>, x: Span): string
    requires Inside(argv, x)
  {
    argv[x.arg][x.from..x.to]
  }

  function ArgOf(argv: seq<string>, d: Delivery): Arg
    requires d.Item? ==> Inside(argv, d.span) && (d.kind.ShortOption? ==> d.span.from < d.span.to)
  {
    match d
    case Nothing => Done
    case Item(ShortOption, x) => Short(argv[x.arg][x.from])
    case Item(LongOption, x) => Long(TextOf(argv, x))
    case Item(_, x) => Positional(TextOf(argv, x))
  }

  /* ---- One call ---- */

  /** Character j of argument k is at the cursor or behind it. */
  predicate Ahead(s: State, k: nat, j: nat) {
    s.args < k || (s.args == k && s.shortIndex <= j)
  }

  predicate Covers(d: Delivery, k: nat, j: nat) {
    d.Item? && d.span.arg == k && d.span.from <= j < d.span.to
  }

  /** Character j of argument k is one of the dashes at its start. */
  predicate Dash(argv: seq<string>, k: nat, j: nat)
    requires k < |argv| && j < |argv[k]|
  {
    j < 2 && argv[k][0] == '-' && argv[k][j] == '-'
  }

  /** The call delivers what is ahead and moves the cursor behind it, over nothing else but dashes. */
  ghost predicate Moves(argv: seq<string>, s: State, t: State, d: Delivery) {
    && Sound(argv, t)
    && (s.args < t.args || (s.args == t.args && s.shortIndex <= t.shortIndex))
    && (d.Item? ==>
          && Inside(argv, d.span) && Ahead(s, d.span.arg, d.span.from)
          && (d.span.arg < t.args || (d.span.arg == t.args && d.span.to <= t.shortIndex)))
    && (forall k, j :: 0 <= k < |argv| && 0 <= j < |argv[k]| && Ahead(s, k, j) && !Ahead(t, k, j) ==>
        Covers(d, k, j) || Dash(argv, k, j))
  }

  lemma {:induction false} NextMoves(argv: seq<string>, s: State)
    requires Sound(argv, s)
    ensures var (t, d) := Next(argv, s);
            Moves(argv, s, t, d) && (d.Nothing? ==> t.args == |argv|) &&
            (d.Item? ==> d.kind != Value && (d.kind == ShortOption ==> d.span.to == d.span.from + 1))
    decreases |argv| - s.args, if s.shortIndex == 0 then 1 else 0
  {
    if s.args < |argv| && !s.onlyPos && s.shortIndex == 0 {
      var a := argv[s.args];
      if |a| > 1 && a[0] == '-' {
        if a[1] == '-' && |a| == 2 {
          NextMoves(argv, State(s.args + 1, 0, true));
        } else if a[1] != '-' {
          NextMoves(argv, s.(shortIndex := 1));
        }
      }
    }
  }

  lemma NextValueMoves(argv: seq<string>, s: State)
    requires Sound(argv, s)
    ensures var (t, d) := NextValue(argv, s);
            Moves(argv, s, t, d) && (d.Nothing? <==> s.args == |argv|) && (d.Item? ==> d.kind == Value)
  {}

  /**
   A value is all that is left of the argument at the cursor, dashes included, and the cursor goes to the start of
   the next argument.
   */
  lemma NextValueTakesRest(argv: seq<string>, s: State)
    requires Sound(argv, s) && s.args < |argv|
    ensures var (t, d) := NextValue(argv, s);
            && t.args == s.args + 1 && t.shortIndex == 0 && t.onlyPos == s.onlyPos
            && d.Item? && Inside(argv, d.span) && TextOf(argv, d.span) == argv[s.args][s.shortIndex..]
            && forall k, j :: 0 <= k < |argv| && 0 <= j < |argv[k]| ==>
                 (Covers(d, k, j) <==> k == s.args && Ahead(s, k, j))
  {
    WholeText(argv[s.args], s.shortIndex);
  }

  /* ---- Iterating ---- */

  /** What is still to come. */
  function Pending(argv: seq<string>, s: State): seq<Arg>
    requires Sound(argv, s)
  {
    if s.shortIndex > 0 then Cluster(argv[s.args], s.shortIndex) + Flatten(argv[s.args + 1..], false)
    else Flatten(argv[s.args..], s.onlyPos)
  }

  /** A call delivers the first of what is to come, and leaves the rest. */
  lemma {:induction false} NextTakesFirst(argv: seq<string>, s: State)
    requires Sound(argv, s)
    ensures var (t, d) := Next(argv, s);
            && Sound(argv, t) && (d.Item? ==> Inside(argv, d.span) && (d.kind.ShortOption? ==> d.span.from < d.span.to))
            && (if d.Nothing? then Pending(argv, s) == [] else Pending(argv, s) == [ArgOf(argv, d)] + Pending(argv, t))
    decreases |argv| - s.args, if s.shortIndex == 0 then 1 else 0
  {
    NextMoves(argv, s);
    if s.shortIndex > 0 {
      ClusterTakesFirst(argv, s);
    } else if s.args < |argv| {
      var a := argv[s.args];
      PendingHere(argv, s);
      if !s.onlyPos && |a| > 1 && a[0] == '-' {
        if a == "--" {
          NextTakesFirst(argv, State(s.args + 1, 0, true));
        } else if a[1] != '-' {
          NextTakesFirst(argv, s.(shortIndex := 1));
        }
      }
    }
  }

  lemma PendingHere(argv: seq<string>, s: State)
    requires Sound(argv, s) && s.args < |argv| && s.shortIndex == 0
    ensures var a, rest := argv[s.args], argv[s.args + 1..];
            a[0..|a|] == a && Pending(argv, s) ==
              if s.onlyPos || a == "" || a[0] != '-' || a == "-" then [Positional(a)] + Flatten(rest, s.onlyPos)
              else if a == "--" then Flatten(rest, true)
              else if a[1] == '-' then [Long(a[2..])] + Flatten(rest, false)
              else Cluster(a, 1) + Flatten(rest, false)
  {
    assert argv[s.args..][0] == argv[s.args] && argv[s.args..][1..] == argv[s.args + 1..];
  }

  lemma ClusterTakesFirst(argv: seq<string>, s: State)
    requires Sound(argv, s) && s.shortIndex > 0
    ensures Sound(argv, Next(argv, s).0)
    ensures Pending(argv, s) == [Short(argv[s.args][s.shortIndex])] + Pending(argv, Next(argv, s).0)
  {
    var a, i, rest := argv[s.args], s.shortIndex, Flatten(argv[s.args + 1..], false);
    assert Cluster(a, i) + rest == [Short(a[i])] + (Cluster(a, i + 1) + rest);
    assert i + 1 == |a| ==> Cluster(a, i + 1) + rest == rest;
  }

  /** What a call delivers. */
  ghost function ArgNow(argv: seq<string>, s: State): Arg
    requires Sound(argv, s)
  {
    NextMoves(argv, s);
    ArgOf(argv, Next(argv, s).1)
  }

  lemma WholeText(a: string, i: nat)
    requires i <= |a|
    ensures a[i..|a|] == a[i..] && a[0..] == a
  {}

  class Context {
    const argv: seq<string>
    var onlyPos: bool
    var shortIndex: nat
    var args: nat

    ghost function Cursor(): State
      reads this
    {
      State(args, shortIndex, onlyPos)
    }

    ghost predicate Valid()
      reads this
    {
      Sound(argv, Cursor())
    }

    /** arg_init */
    constructor (argv: seq<string>)
      ensures Valid() && this.argv == argv && Cursor() == First(argv)
    {
      this.argv := argv;
      onlyPos := false;
      shortIndex := 0;
      args := if argv == [] then 0 else 1;
    }

    /** arg_next */
    method ArgNext() returns (arg: Arg)
      requires Valid()
      modifies this
      ensures Valid() && arg == ArgNow(argv, old(Cursor())) && Cursor() == Next(argv, old(Cursor())).0
      ensures arg.Done? ==> args == |argv|
    {
      ghost var s := Cursor();
      NextMoves(argv, s);
      while true
        invariant Valid() && Next(argv, Cursor()) == Next(argv, s)
        decreases |argv| - args, if shortIndex == 0 then 1 else 0
      {
        if args == |argv| {
          return Done;
        }
        var a := argv[args];
        WholeText(a, 0);
        if onlyPos {
          args := args + 1;
          return Positional(a);
        }
        if shortIndex > 0 {
          arg := Short(a[shortIndex]);
          shortIndex := shortIndex + 1;
          if shortIndex == |a| {
            args := args + 1;
            shortIndex := 0;
          }
          return;
        }
        if |a| > 0 && a[0] == '-' {
          if |a| == 1 {
            args := args + 1;
            return Positional(a);
          }
          if a[1] == '-' {
            if |a| == 2 {
              onlyPos := true;
              args := args + 1;
              continue;
            }
            WholeText(a, 2);
            args := args + 1;
            return Long(a[2..]);
          }
          shortIndex := 1;
          continue;
        }
        args := args + 1;
        return Positional(a);
      }
    }

    /** arg_next_value; None is NULL. */
    method ArgNextValue() returns (value: Option<string>)
      requires Valid()
      modifies this
      ensures Valid()
      ensures value == if old(args) == |argv| then None else Some(argv[old(args)][old(shortIndex)..])
      ensures args == (if old(args) == |argv| then old(args) else old(args) + 1)
      ensures shortIndex == 0 && onlyPos == old(onlyPos)
      ensures Cursor() == NextValue(argv, old(Cursor())).0
    {
      NextValueMoves(argv, Cursor());
      if shortIndex > 0 {
        WholeText(argv[args], shortIndex);
        value := Some(argv[args][shortIndex..]);
        args, shortIndex := args + 1, 0;
        return;
      }
      if args == |argv| {
        return None;
      }
      value := Some(argv[args]);
      WholeText(argv[args], 0);
      args := args + 1;
    }
  }

  datatype Option<T> = None | Some(value: T)

  /** The loop around arg_next, up to ARG_KIND_DONE. */
  method Iterate(argv: seq<string>) returns (all: seq<Arg>)
    ensures all == Flatten(if argv == [] then [] else argv[1..], false)
  {
    var ctxt := new Context(argv);
    all := [];
    ghost var s, todo := First(argv), Pending(argv, First(argv));
    StartsWithAll(argv);
    while true
      invariant ctxt.Valid() && ctxt.argv == argv && ctxt.Cursor() == s
      invariant todo == Pending(argv, s) && all + todo == Flatten(if argv == [] then [] else argv[1..], false)
      decreases |todo|
    {
      NextTakesFirst(argv, s);
      var arg := ctxt.ArgNext();
      if arg.Done? {
        return;
      }
      s := Next(argv, s).0;
      Regroup(all, arg, todo[1..]);
      todo := todo[1..];
      all := all + [arg];
    }
  }

  lemma StartsWithAll(argv: seq<string>)
    ensures Pending(argv, First(argv)) == Flatten(if argv == [] then [] else argv[1..], false)
  {
    assert argv == [] ==> argv[0..] == [];
  }

  lemma Regroup(x: seq<Arg>, y: Arg, z: seq<Arg>)
    ensures x + ([y] + z) == (x + [y]) + z
  {}

  /* ---- Any calls in any order ---- */

  datatype Call = CallNext | CallValue

  function Step(argv: seq<string>, s: State, c: Call): (State, Delivery)
    requires Sound(argv, s)
  {
    if c.CallNext? then Next(argv, s) else NextValue(argv, s)
  }

  lemma StepMoves(argv: seq<string>, s: State, c: Call)
    requires Sound(argv, s)
    ensures var (t, d) := Step(argv, s, c); Moves(argv, s, t, d)
  {
    NextMoves(argv, s);
    NextValueMoves(argv, s);
  }

  /** Where the calls leave the cursor, and what they deliver. */
  ghost function Run(argv: seq<string>, s: State, calls: seq<Call>): (r: (State, seq<Delivery>))
    requires Sound(argv, s)
    ensures |r.1| == |calls|
    decreases |calls|
  {
    if calls == [] then (s, [])
    else
      StepMoves(argv, s, calls[0]);
      var (t, d) := Step(argv, s, calls[0]);
      var (u, more) := Run(argv, t, calls[1..]);
      (u, [d] + more)
  }

  /** x ends before y begins. */
  predicate Before(x: Span, y: Span) {
    x.arg < y.arg || (x.arg == y.arg && x.to <= y.from)
  }

  /** In any run of both calls the cursor stays sound, and what is delivered is in the arguments, ahead of the start. */
  lemma {:induction false} RunMoves(argv: seq<string>, s: State, calls: seq<Call>)
    requires Sound(argv, s)
    ensures var (u, ds) := Run(argv, s, calls);
            && Sound(argv, u) && (s.args < u.args || (s.args == u.args && s.shortIndex <= u.shortIndex))
            && forall i :: 0 <= i < |ds| && ds[i].Item? ==>
                Inside(argv, ds[i].span) && Ahead(s, ds[i].span.arg, ds[i].span.from)
    decreases |calls|
  {
    if calls != [] {
      StepMoves(argv, s, calls[0]);
      RunMoves(argv, Step(argv, s, calls[0]).0, calls[1..]);
    }
  }

  /** Nothing is delivered twice: every delivery lies behind all earlier ones. */
  lemma {:induction false} NothingTwice(argv: seq<string>, s: State, calls: seq<Call>)
    requires Sound(argv, s)
    ensures var ds := Run(argv, s, calls).1;
            forall i, j :: 0 <= i < j < |ds| && ds[i].Item? && ds[j].Item? ==> Before(ds[i].span, ds[j].span)
    decreases |calls|
  {
    if calls != [] {
      var (t, d) := Step(argv, s, calls[0]);
      StepMoves(argv, s, calls[0]);
      RunMoves(argv, t, calls[1..]);
      NothingTwice(argv, t, calls[1..]);
    }
  }

  /** Nothing is lost: a character the cursor has passed was delivered, or is a dash at the start of its argument. */
  lemma {:induction false} NothingLost(argv: seq<string>, s: State, calls: seq<Call>, k: nat, j: nat)
    requires Sound(argv, s) && k < |argv| && j < |argv[k]| && Ahead(s, k, j) && !Ahead(Run(argv, s, calls).0, k, j)
    ensures Dash(argv, k, j) || exists i :: 0 <= i < |calls| && Covers(Run(argv, s, calls).1[i], k, j)
    decreases |calls|
  {
    var (t, d) := Step(argv, s, calls[0]);
    StepMoves(argv, s, calls[0]);
    var ds := Run(argv, s, calls).1;
    if Ahead(t, k, j) {
      NothingLost(argv, t, calls[1..], k, j);
      if !Dash(argv, k, j) {
        var i :| 0 <= i < |calls| - 1 && Covers(Run(argv, t, calls[1..]).1[i], k, j);
        assert Covers(ds[i + 1], k, j);
      }
    } else if !Dash(argv, k, j) {
      assert Covers(ds[0], k, j);
    }
  }
}
