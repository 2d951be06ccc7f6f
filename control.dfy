/** The control protocol: the line-oriented commands a client sends over the server's local
    socket (`serverHandle` in quickshare.go). Step is one command on a registry as a value;
    Session runs the lines of one connection. Handle and Serve do the same work in place on
    a Registry object, the way the Go code updates its global list. */
module Control {
  import opened Text
  import opened Shares
  import opened Registry

  const Pong := "pong"
  const Ok := "OK"
  const ExistsReason := "Share exists already"
  const NotFoundReason := "Share not found"
  const ExistsReply := "ERR " + ExistsReason
  const NotFoundReply := "ERR " + NotFoundReason

  /** The reply to an `add` that registered `s`. */
  function AddedReply(s: Share): string {
    "OK Share \"" + s.name + "\"@'" + s.filename + "'"
  }

  /** The line `ls` prints for one share. */
  function ListLine(s: Share): string {
    s.name + " " + s.filename
  }

  /** The lines `ls` prints for a list of shares, before its final OK. */
  function ListLines(s: seq<Share>): (r: seq<string>)
    ensures |r| == |s|
    ensures forall k :: 0 <= k < |s| ==> r[k] == ListLine(s[k])
  {
    if s == [] then [] else ListLines(s[..|s| - 1]) + [ListLine(s[|s| - 1])]
  }

  /** What one or more commands produce: the reply lines (each sent followed by a newline),
      the registry afterwards, and whether the server shuts down. */
  datatype Outcome = Outcome(replies: seq<string>, shares: seq<Share>, stop: bool)

  /** The commands of the protocol; any other line is Unknown. */
  datatype Command = Ping | Add(spec: string) | Rm(name: string) | List | Stop | Unknown

  /** A trimmed line the server answers. */
  predicate IsCommand(line: string) {
    line == "ping" || HasPrefix(line, "add ") || HasPrefix(line, "rm ")
    || line == "ls" || line == "list" || line == "stop"
  }

  /** The if-chain of serverHandle: which command a trimmed line is. The command words are
      case-sensitive, and `add` and `rm` need the space that separates their argument. */
  function Parse(line: string): (c: Command)
    ensures c == Ping <==> line == "ping"
    ensures c.Add? <==> HasPrefix(line, "add ")
    ensures c.Add? ==> c.spec == line[4..]
    ensures c.Rm? <==> HasPrefix(line, "rm ")
    ensures c.Rm? ==> c.name == line[3..]
    ensures c == List <==> line == "ls" || line == "list"
    ensures c == Stop <==> line == "stop"
    ensures c == Unknown <==> !IsCommand(line)
  {
    if line == "ping" then
      assert line[0] == 'p';
      Ping
    else if HasPrefix(line, "add ") then
      assert line[0] == "add "[0];
      Add(line[4..])
    else if HasPrefix(line, "rm ") then
      assert line[0] == "rm "[0];
      Rm(line[3..])
    else if line == "ls" || line == "list" then List
    else if line == "stop" then Stop
    else Unknown
  }

  /** What a command does to the registry `shares` and what it answers. */
  function Exec(c: Command, shares: seq<Share>, cwd: Dir): (r: Outcome)
    ensures Unique(shares) ==> Unique(r.shares)
    ensures r.stop <==> c == Stop
    ensures r.replies == [] <==> c == Unknown
    ensures r.shares != shares ==> c.Add? || c.Rm?
  {
    match c
    case Ping => Outcome([Pong], shares, false)
    case Add(spec) =>
      var s := Apply(spec, cwd);
      if HasName(shares, s.name) then
        Outcome([ExistsReply], shares, false)
      else
        assert Unique(shares) ==> Unique(shares + [s]) by {
          if Unique(shares) { AppendPreservesUnique(shares, s); }
        }
        Outcome([AddedReply(s)], shares + [s], false)
    case Rm(name) =>
      if HasName(shares, name) then
        assert Unique(shares) ==> Unique(Remove(shares, name)) by {
          if Unique(shares) { RemovePreservesUnique(shares, name); }
        }
        Outcome([Ok], Remove(shares, name), false)
      else
        Outcome([NotFoundReply], shares, false)
    case List => Outcome(ListLines(shares) + [Ok], shares, false)
    case Stop => Outcome([Ok], shares, true)
    case Unknown => Outcome([], shares, false)
  }

  /** One line read from the control socket, trimmed and interpreted against the registry
      `shares`. Only `add` and `rm` change the registry, only `stop` ends the server, only
      unrecognised lines go unanswered, and no duplicate name is ever introduced. */
  function Step(raw: string, shares: seq<Share>, cwd: Dir): (r: Outcome)
    ensures Unique(shares) ==> Unique(r.shares)
    ensures r.stop <==> Trim(raw) == "stop"
    ensures r.replies == [] <==> !IsCommand(Trim(raw))
    ensures r.shares != shares ==> HasPrefix(Trim(raw), "add ") || HasPrefix(Trim(raw), "rm ")
  {
    Exec(Parse(Trim(raw)), shares, cwd)
  }

  lemma StepPing(raw: string, shares: seq<Share>, cwd: Dir)
    requires Trim(raw) == "ping"
    ensures Step(raw, shares, cwd) == Outcome([Pong], shares, false)
  {
  }

  /** `add <spec>`: a share whose name is taken is refused and nothing changes; otherwise it
      goes at the end of the list, and the reply names it and its absolute path. */
  lemma StepAdd(raw: string, shares: seq<Share>, cwd: Dir)
    requires HasPrefix(Trim(raw), "add ")
    ensures var s := Apply(Trim(raw)[4..], cwd);
            Step(raw, shares, cwd) ==
              if HasName(shares, s.name) then Outcome([ExistsReply], shares, false)
              else Outcome([AddedReply(s)], shares + [s], false)
  {
  }

  /** `rm <name>`: OK and the first share of that name is gone, or an error and nothing
      changes. */
  lemma StepRm(raw: string, shares: seq<Share>, cwd: Dir)
    requires HasPrefix(Trim(raw), "rm ")
    ensures var name := Trim(raw)[3..];
            Step(raw, shares, cwd) ==
              if HasName(shares, name) then Outcome([Ok], Remove(shares, name), false)
              else Outcome([NotFoundReply], shares, false)
  {
  }

  /** `ls` and `list`: one line per share, in registry order, then OK. */
  lemma StepList(raw: string, shares: seq<Share>, cwd: Dir)
    requires Trim(raw) == "ls" || Trim(raw) == "list"
    ensures var r := Step(raw, shares, cwd);
            r.shares == shares && !r.stop && |r.replies| == |shares| + 1
            && r.replies[|shares|] == Ok
            && forall k :: 0 <= k < |shares| ==> r.replies[k] == ListLine(shares[k])
  {
    assert Parse(Trim(raw)) == List;
  }

  lemma StepStop(raw: string, shares: seq<Share>, cwd: Dir)
    requires Trim(raw) == "stop"
    ensures Step(raw, shares, cwd) == Outcome([Ok], shares, true)
  {
  }

  /** Any other line is ignored: no reply, no change. */
  lemma StepUnknown(raw: string, shares: seq<Share>, cwd: Dir)
    requires !IsCommand(Trim(raw))
    ensures Step(raw, shares, cwd) == Outcome([], shares, false)
  {
  }

  /** The lines bufio's ReadLine returns from what a connection sends: the text is cut at
      each newline, which is dropped, and a last piece without a newline is a line too. */
  function Lines(stream: string): (r: seq<string>)
    ensures forall k :: 0 <= k < |r| ==> '\n' !in r[k]
    decreases |stream|
  {
    if stream == [] then []
    else
      var i := IndexOf(stream, '\n');
      if i < 0 then [stream] else [stream[..i]] + Lines(stream[i + 1..])
  }

  /** A piece without a newline, followed by one, is the next line. */
  lemma {:induction false} LinesCons(line: string, rest: string)
    requires '\n' !in line
    ensures Lines(line + "\n" + rest) == [line] + Lines(rest)
  {
    var stream := line + "\n" + rest;
    IndexOfAfterPrefix(line, '\n', rest);
    assert stream[..|line|] == line;
    assert stream[|line| + 1..] == rest;
  }

  /** `out` followed by what `o` replies, ending where `o` ends. */
  function Then(out: seq<string>, o: Outcome): Outcome {
    Outcome(out + o.replies, o.shares, o.stop)
  }

  /** One connection: the lines are handled in order until they run out or `stop` is read;
      the replies of all of them are concatenated. Defined on the last line, so that it
      follows the read loop one line at a time. */
  function Session(lines: seq<string>, shares: seq<Share>, cwd: Dir): Outcome
    decreases |lines|
  {
    if lines == [] then Outcome([], shares, false)
    else
      var before := Session(lines[..|lines| - 1], shares, cwd);
      if before.stop then before
      else Then(before.replies, Step(lines[|lines| - 1], before.shares, cwd))
  }

  /** One more line, when the session has not stopped yet. */
  lemma SessionExtend(lines: seq<string>, i: nat, shares: seq<Share>, cwd: Dir, before: Outcome, r: Outcome)
    requires i < |lines| && before == Session(lines[..i], shares, cwd) && !before.stop
    requires r == Step(lines[i], before.shares, cwd)
    ensures Session(lines[..i + 1], shares, cwd) == Then(before.replies, r)
  {
    var upto := lines[..i + 1];
    TakeTake(lines, i, i + 1);
    assert upto[|upto| - 1] == lines[i];
  }

  /** Lines after a `stop` are never handled. */
  lemma {:induction false} SessionAfterStop(lines: seq<string>, n: nat, shares: seq<Share>, cwd: Dir)
    requires n <= |lines| && Session(lines[..n], shares, cwd).stop
    ensures Session(lines, shares, cwd) == Session(lines[..n], shares, cwd)
    decreases |lines| - n
  {
    if n < |lines| {
      var init := lines[..|lines| - 1];
      assert init[..n] == lines[..n];
      SessionAfterStop(init, n, shares, cwd);
    } else {
      TakeAll(lines);
    }
  }

  /** A session that has not read `stop` among its lines has not stopped. */
  lemma {:induction false} SessionRunsOn(lines: seq<string>, shares: seq<Share>, cwd: Dir)
    requires forall j :: 0 <= j < |lines| ==> Trim(lines[j]) != "stop"
    ensures !Session(lines, shares, cwd).stop
    decreases |lines|
  {
    if lines != [] {
      SessionRunsOn(lines[..|lines| - 1], shares, cwd);
    }
  }

  /** A session stops the server exactly when one of its lines is `stop`, and nothing after
      the first such line is handled. */
  lemma SessionStops(lines: seq<string>, shares: seq<Share>, cwd: Dir, k: nat)
    requires k < |lines| && Trim(lines[k]) == "stop"
    requires forall j :: 0 <= j < k ==> Trim(lines[j]) != "stop"
    ensures Session(lines, shares, cwd).stop
    ensures Session(lines, shares, cwd) == Session(lines[..k + 1], shares, cwd)
  {
    var prefix := lines[..k + 1];
    TakeTake(lines, k, k + 1);
    SessionRunsOn(lines[..k], shares, cwd);
    SessionAfterStop(lines, k + 1, shares, cwd);
  }

  /** However the lines of a session mix `add` and `rm`, a registry without duplicate names
      never gets one. */
  lemma {:induction false} SessionPreservesUnique(lines: seq<string>, shares: seq<Share>, cwd: Dir)
    requires Unique(shares)
    ensures Unique(Session(lines, shares, cwd).shares)
    decreases |lines|
  {
    if lines != [] {
      SessionPreservesUnique(lines[..|lines| - 1], shares, cwd);
    }
  }

  /** A session of one line is that line's step. */
  lemma SessionOne(line: string, shares: seq<Share>, cwd: Dir)
    ensures Session([line], shares, cwd) == Step(line, shares, cwd)
  {
    assert [line][..0] == [];
  }

  /** A session of two lines, when the first is not `stop`: the replies of both, in order,
      and the registry the second leaves. */
  lemma SessionTwo(first: string, second: string, shares: seq<Share>, cwd: Dir,
                   replies: seq<string>, between: seq<Share>, more: seq<string>, after: seq<Share>, stop: bool)
    requires Step(first, shares, cwd) == Outcome(replies, between, false)
    requires Step(second, between, cwd) == Outcome(more, after, stop)
    ensures Session([first, second], shares, cwd) == Outcome(replies + more, after, stop)
  {
    TakeFirst(first, second);
    SessionOne(first, shares, cwd);
  }

  lemma ConsDisplay<T>(a: T, b: seq<T>)
    ensures |b| == 1 ==> [a] + b == [a, b[0]]
    ensures |b| == 2 ==> [a] + b == [a, b[0], b[1]]
  {
  }

  /** The `add` line for `s` reaches the server as it was written: it holds no newline, which
      would split it into several lines, and the server's trimming leaves it as it is. */
  predicate ArrivesIntact(s: Share) {
    '\n' !in ShareName(s) && Trimmed("add " + ShareName(s))
  }

  /** A named share with an absolute path whose `add` line the server reads back intact. */
  predicate Sendable(s: Share) {
    s.name != "" && ':' !in s.name && IsAbsolute(s.filename) && ArrivesIntact(s)
  }

  /** The line `add name:path` for a sendable share is read back as that share. */
  lemma ParseAdd(s: Share, cwd: Dir)
    requires Sendable(s)
    ensures Parse(Trim("add " + ShareName(s))) == Add(ShareName(s))
    ensures Apply(ShareName(s), cwd) == s
  {
    var line := "add " + ShareName(s);
    assert HasPrefix(line, "add ");
    assert line[4..] == ShareName(s);
    ApplyShareName(s, cwd);
  }

  /** The server's answer to the `add` line of a sendable share. */
  lemma AddSendable(x: Share, shares: seq<Share>, cwd: Dir)
    requires Sendable(x)
    ensures Step("add " + ShareName(x), shares, cwd) ==
              if HasName(shares, x.name) then Outcome([ExistsReply], shares, false)
              else Outcome([AddedReply(x)], shares + [x], false)
  {
    ParseAdd(x, cwd);
  }

  /** A connection that only removes a name nobody registered gets the error and leaves the
      registry as it was. */
  lemma RemoveMissing(line: string, shares: seq<Share>, cwd: Dir)
    requires HasPrefix(Trim(line), "rm ") && !HasName(shares, Trim(line)[3..])
    ensures Session([line], shares, cwd) == Outcome([NotFoundReply], shares, false)
  {
    StepRm(line, shares, cwd);
    SessionOne(line, shares, cwd);
  }

  /** The command the client sends for one of its arguments (`add` followed by ShareName)
      registers on the server exactly the share the client computed, unless that name is
      taken. This needs a non-empty name, and a line that arrives intact: no newline, and no
      whitespace at its end, which the server's trimming would cut off. */
  lemma ClientAddRegisters(spec: string, clientCwd: Dir, serverCwd: Dir, shares: seq<Share>)
    requires Apply(spec, clientCwd).name != ""
    requires ArrivesIntact(Apply(spec, clientCwd))
    ensures var s := Apply(spec, clientCwd);
            Step("add " + ShareName(s), shares, serverCwd) ==
              if HasName(shares, s.name) then Outcome([ExistsReply], shares, false)
              else Outcome([AddedReply(s)], shares + [s], false)
  {
    var s := Apply(spec, clientCwd);
    var line := "add " + ShareName(s);
    assert Trim(line) == line;
    assert HasPrefix(line, "add ");
    assert line[4..] == ShareName(s);
    ClientSpecRoundTrip(spec, clientCwd, serverCwd);
  }

  /** A second `add` of a name already bound is refused and keeps the first binding. */
  lemma AddTwice(x: Share, y: Share, shares: seq<Share>, cwd: Dir)
    requires Sendable(x) && Sendable(y) && x.name == y.name && !HasName(shares, x.name)
    ensures Session(["add " + ShareName(x), "add " + ShareName(y)], shares, cwd)
            == Outcome([AddedReply(x), ExistsReply], shares + [x], false)
  {
    var after := shares + [x];
    assert Step("add " + ShareName(x), shares, cwd) == Outcome([AddedReply(x)], after, false) by {
      AddSendable(x, shares, cwd);
    }
    assert Step("add " + ShareName(y), after, cwd) == Outcome([ExistsReply], after, false) by {
      assert after[|shares|].name == y.name;
      AddSendable(y, after, cwd);
    }
    SessionTwo("add " + ShareName(x), "add " + ShareName(y), shares, cwd,
               [AddedReply(x)], after, [ExistsReply], after, false);
    ConsDisplay(AddedReply(x), [ExistsReply]);
  }

  /** After a share is added, `ls` (or `list`) shows every share including the new one,
      which comes last, and then OK. */
  lemma AddThenList(x: Share, list: string, shares: seq<Share>, cwd: Dir)
    requires Sendable(x) && !HasName(shares, x.name)
    requires Trim(list) == "ls" || Trim(list) == "list"
    ensures Session(["add " + ShareName(x), list], shares, cwd)
            == Outcome([AddedReply(x)] + ListLines(shares + [x]) + [Ok], shares + [x], false)
    ensures ListLines(shares + [x]) == ListLines(shares) + [ListLine(x)]
  {
    var after := shares + [x];
    var listed := ListLines(after) + [Ok];
    assert Step("add " + ShareName(x), shares, cwd) == Outcome([AddedReply(x)], after, false) by {
      AddSendable(x, shares, cwd);
    }
    assert Step(list, after, cwd) == Outcome(listed, after, false) by {
      assert Parse(Trim(list)) == List;
    }
    SessionTwo("add " + ShareName(x), list, shares, cwd, [AddedReply(x)], after, listed, after, false);
    ConcatAssoc([AddedReply(x)], ListLines(after), [Ok]);
    TakeSnoc(shares, x);
  }

  /** serverHandle's `add`: parse the argument, refuse a name that is taken, append
      otherwise. */
  method AddShare(reg: Registry, spec: string, cwd: Dir) returns (replies: seq<string>)
    modifies reg
    ensures Outcome(replies, reg.shares, false) == Exec(Add(spec), old(reg.shares), cwd)
  {
    var share := Apply(spec, cwd);
    var taken := reg.ShareExists(share.name);
    if taken {
      replies := [ExistsReply];
    } else {
      reg.Append(share);
      replies := [AddedReply(share)];
    }
  }

  /** serverHandle's `ls`: one line per share, in order, then OK. */
  method ListShares(reg: Registry) returns (replies: seq<string>)
    ensures replies == ListLines(reg.shares) + [Ok]
    ensures |replies| == |reg.shares| + 1 && replies[|reg.shares|] == Ok
  {
    replies := [];
    var i := 0;
    while i < |reg.shares|
      invariant 0 <= i <= |reg.shares|
      invariant replies == ListLines(reg.shares[..i])
    {
      TakeTake(reg.shares, i, i + 1);
      replies := replies + [ListLine(reg.shares[i])];
      i := i + 1;
    }
    TakeAll(reg.shares);
    replies := replies + [Ok];
  }

  /** serverHandle's dispatch of one line, carried out on the registry in place. */
  method Handle(reg: Registry, raw: string, cwd: Dir) returns (replies: seq<string>, stop: bool)
    modifies reg
    ensures Outcome(replies, reg.shares, stop) == Step(raw, old(reg.shares), cwd)
  {
    var line := Trim(raw);
    ghost var c := Parse(line);
    replies, stop := [], false;
    if line == "ping" {
      assert c == Ping;
      replies := [Pong];
    } else if HasPrefix(line, "add ") {
      assert c == Add(line[4..]);
      replies := AddShare(reg, line[4..], cwd);
    } else if HasPrefix(line, "rm ") {
      assert c == Rm(line[3..]);
      var removed := reg.RemoveShare(line[3..]);
      replies := if removed then [Ok] else [NotFoundReply];
    } else if line == "ls" || line == "list" {
      assert c == List;
      replies := ListShares(reg);
    } else if line == "stop" {
      assert c == Stop;
      replies := [Ok];
      stop := true;
    } else {
      assert c == Unknown;
    }
  }

  /** serverHandle's read loop over one connection's lines. */
  method Serve(reg: Registry, lines: seq<string>, cwd: Dir) returns (output: seq<string>, stopped: bool)
    modifies reg
    ensures Outcome(output, reg.shares, stopped) == Session(lines, old(reg.shares), cwd)
    ensures old(reg.Valid()) ==> reg.Valid()
  {
    ghost var start := reg.shares;
    if Unique(start) {
      SessionPreservesUnique(lines, start, cwd);
    }
    output, stopped := [], false;
    var i := 0;
    while i < |lines| && !stopped
      invariant 0 <= i <= |lines|
      invariant Session(lines[..i], start, cwd) == Outcome(output, reg.shares, stopped)
    {
      ghost var before := Outcome(output, reg.shares, stopped);
      var replies, stop := Handle(reg, lines[i], cwd);
      SessionExtend(lines, i, start, cwd, before, Outcome(replies, reg.shares, stop));
      output := output + replies;
      stopped := stop;
      i := i + 1;
      assert Session(lines[..i], start, cwd) == Outcome(output, reg.shares, stopped);
    }
    if stopped {
      SessionAfterStop(lines, i, start, cwd);
    } else {
      TakeAll(lines);
    }
  }
}
