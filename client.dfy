/** The client side of `add` (the loop over file arguments in quickshare.go's main): the
    client sends `add` with the share's ShareName and sorts the one line it reads back into
    success, a refusal with the server's reason, or an answer it does not recognise. */
module Client {
  import opened Text
  import opened Shares
  import opened Registry
  import opened Control

  /** How the client reads the server's reply to `add`. */
  datatype AddResult = Serving | Refused(reason: string) | Unrecognised(line: string)

  /** The line the client sends to share `s`. */
  function AddLine(s: Share): string {
    "add " + ShareName(s)
  }

  /** The reply is trimmed first; "OK" at its start means success, "ERR " an error whose
      reason follows, and anything else is reported as it stands. */
  function Classify(raw: string): (r: AddResult)
    ensures r == Serving <==> HasPrefix(Trim(raw), "OK")
    ensures r.Refused? <==> !HasPrefix(Trim(raw), "OK") && HasPrefix(Trim(raw), "ERR ")
    ensures r.Refused? ==> Trim(raw) == "ERR " + r.reason
    ensures r.Unrecognised? ==> r.line == Trim(raw)
  {
    var line := Trim(raw);
    if HasPrefix(line, "OK") then Serving
    else if HasPrefix(line, "ERR ") then
      assert line == line[..4] + line[4..];
      Refused(line[4..])
    else Unrecognised(line)
  }

  /** The server's answer to the client's `add`, as the client reads it: served when the
      name was free (and then the registry holds exactly the share the client computed at
      its end), refused because the share exists otherwise. */
  lemma AddRoundTrip(spec: string, clientCwd: Dir, serverCwd: Dir, shares: seq<Share>)
    requires Apply(spec, clientCwd).name != ""
    requires ArrivesIntact(Apply(spec, clientCwd))
    ensures var s := Apply(spec, clientCwd);
            var r := Step(AddLine(s), shares, serverCwd);
            |r.replies| == 1
            && (Classify(r.replies[0]) == Serving <==> !HasName(shares, s.name))
            && (Classify(r.replies[0]) == Serving ==> r.shares == shares + [s])
            && (Classify(r.replies[0]) != Serving ==>
                  Classify(r.replies[0]) == Refused(ExistsReason) && r.shares == shares)
  {
    var s := Apply(spec, clientCwd);
    ClientAddRegisters(spec, clientCwd, serverCwd, shares);
    ReadAddReply(s, shares, Step(AddLine(s), shares, serverCwd));
  }

  /** How the client reads each of the two answers the server gives to an `add` of `s`. */
  lemma ReadAddReply(s: Share, shares: seq<Share>, r: Outcome)
    requires r == if HasName(shares, s.name) then Outcome([ExistsReply], shares, false)
                  else Outcome([AddedReply(s)], shares + [s], false)
    ensures |r.replies| == 1
    ensures Classify(r.replies[0]) == Serving <==> !HasName(shares, s.name)
    ensures Classify(r.replies[0]) == Serving ==> r.shares == shares + [s]
    ensures Classify(r.replies[0]) != Serving ==>
              Classify(r.replies[0]) == Refused(ExistsReason) && r.shares == shares
  {
    if HasName(shares, s.name) {
      assert ExistsReason[|ExistsReason| - 1] == 'y';
      ErrorRead(ExistsReason);
    } else {
      AddedRead(s);
    }
  }

  /** The success reply is read as success. */
  lemma AddedRead(s: Share)
    ensures Classify(AddedReply(s)) == Serving
  {
    var reply := AddedReply(s);
    assert Trimmed(reply) by {
      assert reply[0] == 'O';
      assert reply[|reply| - 1] == '\'';
    }
    assert reply[..2] == "OK";
  }

  /** An error reply is read as a refusal carrying the server's reason. */
  lemma ErrorRead(reason: string)
    requires reason != [] && !IsSpace(reason[|reason| - 1])
    ensures Classify("ERR " + reason) == Refused(reason)
  {
    var reply := "ERR " + reason;
    assert reply[0] == 'E' && reply[|reply| - 1] == reason[|reason| - 1];
    assert reply[..4] == "ERR ";
    assert reply[..2] != "OK";
  }

  /** What `--ls` writes, as the code is written: Sprintf("ls\n", arg) has no verb for its
      argument, so fmt appends a note naming it after the newline. */
  const ExtraNote := "%!(EXTRA string=--ls)"
  const ListRequestAsWritten := "ls\n" + ExtraNote

  /** The request `--ls` evidently means to send. */
  const ListRequest := "ls\n"

  /** As written, the server reads the request and the `add` after it as two lines: `ls`,
      then the note with the `add` line glued to its end. */
  lemma RequestLinesAsWritten(s: Share)
    requires '\n' !in ShareName(s)
    ensures Lines(ListRequestAsWritten + AddLine(s) + "\n") == ["ls", ExtraNote + AddLine(s)]
  {
    var glued := ExtraNote + AddLine(s);
    assert ListRequestAsWritten + AddLine(s) + "\n" == "ls" + "\n" + (glued + "\n" + []);
    assert '\n' !in glued;
    LinesCons("ls", glued + "\n" + []);
    LinesCons(glued, []);
  }

  /** With the request fixed, the server reads `ls`, then the `add` line on its own. */
  lemma RequestLines(s: Share)
    requires '\n' !in ShareName(s)
    ensures Lines(ListRequest + AddLine(s) + "\n") == ["ls", AddLine(s)]
  {
    assert ListRequest + AddLine(s) + "\n" == "ls" + "\n" + (AddLine(s) + "\n" + []);
    LinesCons("ls", AddLine(s) + "\n" + []);
    LinesCons(AddLine(s), []);
  }

  /** The line `ls` itself: the listing, then OK. */
  lemma LsStep(shares: seq<Share>, cwd: Dir)
    ensures Step("ls", shares, cwd) == Outcome(ListLines(shares) + [Ok], shares, false)
  {
    assert Trim("ls") == "ls" by {
      assert Trimmed("ls") by {
        assert "ls"[0] == 'l' && "ls"[1] == 's';
      }
    }
  }

  /** The note with an `add` line glued to its end is no command: no reply, no change. */
  lemma GluedAddIgnored(s: Share, shares: seq<Share>, cwd: Dir)
    requires Sendable(s)
    ensures Step(ExtraNote + AddLine(s), shares, cwd) == Outcome([], shares, false)
  {
    var glued := ExtraNote + AddLine(s);
    assert Trim(glued) == glued by {
      assert glued[0] == '%';
      assert glued[|glued| - 1] == AddLine(s)[|AddLine(s)| - 1];
    }
    assert !IsCommand(glued) by {
      assert glued[0] == '%';
    }
    StepUnknown(glued, shares, cwd);
  }

  /** As written, the note has no newline, so the server reads it on one line with the `add`
      that follows: `ls` is answered, but the `add` is taken as an unknown command, gets no
      reply (the client then waits for one) and registers nothing. */
  lemma ListThenAddAsWritten(s: Share, shares: seq<Share>, cwd: Dir)
    requires Sendable(s)
    ensures Lines(ListRequestAsWritten + AddLine(s) + "\n") == ["ls", ExtraNote + AddLine(s)]
    ensures Session(["ls", ExtraNote + AddLine(s)], shares, cwd)
            == Outcome(ListLines(shares) + [Ok], shares, false)
  {
    var listed := ListLines(shares) + [Ok];
    var glued := ExtraNote + AddLine(s);
    RequestLinesAsWritten(s);
    assert Step("ls", shares, cwd) == Outcome(listed, shares, false) by {
      LsStep(shares, cwd);
    }
    assert Step(glued, shares, cwd) == Outcome([], shares, false) by {
      GluedAddIgnored(s, shares, cwd);
    }
    SessionTwo("ls", glued, shares, cwd, listed, shares, [], shares, false);
    assert listed + [] == listed;
  }

  /** With the request fixed, the `add` after `--ls` is answered as usual. */
  lemma ListThenAdd(s: Share, shares: seq<Share>, cwd: Dir)
    requires Sendable(s)
    ensures Lines(ListRequest + AddLine(s) + "\n") == ["ls", AddLine(s)]
    ensures var r := Session(["ls", AddLine(s)], shares, cwd);
            |r.replies| == |shares| + 2
            && r.replies[..|shares| + 1] == ListLines(shares) + [Ok]
            && (Classify(r.replies[|shares| + 1]) == Serving <==> !HasName(shares, s.name))
            && r.shares == (if HasName(shares, s.name) then shares else shares + [s])
  {
    RequestLines(s);
    var listed := ListLines(shares) + [Ok];
    var second := Step(AddLine(s), shares, cwd);
    LsStep(shares, cwd);
    assert second == if HasName(shares, s.name) then Outcome([ExistsReply], shares, false)
                     else Outcome([AddedReply(s)], shares + [s], false) by {
      AddSendable(s, shares, cwd);
    }
    ReadAddReply(s, shares, second);
    SessionTwo("ls", AddLine(s), shares, cwd, listed, shares, second.replies, second.shares, false);
    assert (listed + second.replies)[..|listed|] == listed;
  }
}
