/** The earlier version of the server in src/lib.rs: `process_manager`, which
    owns the membership table, the client's name admission in
    `process_client`, and the two string helpers. */
module Lib {
  import opened Fanout
  import opened Names
  import opened Listing

  datatype Option<T> = None | Some(value: T)

  /** A member: name, the (always set) connected flag and its delivery handle. */
  datatype User = User(name: string, connected: bool, channel: HandleId)

  /** One message type for both directions: sessions send `SetName`,
      `Message` and `Disconnect` to the manager; the manager sends `Message`,
      `Announcement` and `Disconnect` to sessions. */
  datatype Command =
    | SetName(name: string, client: HandleId)
    | Message(from: string, text: string)
    | Announcement(text: string)
    | Disconnect(subject: string)

  // ---------------------------------------------------------------------------
  // Client side: reading the first line as a name

  /** `str::strip_suffix`: the rest of `s` when `s` ends in `suffix`. */
  function StripSuffix(s: string, suffix: string): (r: Option<string>)
    ensures r.Some? <==> |suffix| <= |s| && s[|s| - |suffix|..] == suffix
    ensures r.Some? ==> r.value + suffix == s
  {
    if |suffix| <= |s| && s[|s| - |suffix|..] == suffix then Some(s[..|s| - |suffix|]) else None
  }

  /** `strip_trailing_newline`: drops one "\r\n" if the input ends with it,
      else one "\n", else nothing; the result is always a prefix of the input. */
  function StripTrailingNewline(input: string): (r: string)
    ensures r <= input
    ensures |input| >= 2 && input[|input| - 2..] == "\r\n" ==> r == input[..|input| - 2]
    ensures !(|input| >= 2 && input[|input| - 2..] == "\r\n") && |input| >= 1 && input[|input| - 1] == '\n'
            ==> r == input[..|input| - 1]
    ensures !(|input| >= 2 && input[|input| - 2..] == "\r\n") && !(|input| >= 1 && input[|input| - 1] == '\n')
            ==> r == input
  {
    match StripSuffix(input, "\r\n")
    case Some(rest) => rest
    case None =>
      match StripSuffix(input, "\n")
      case Some(rest) => rest
      case None => input
  }

  /** Terminating a line with "\r\n", or with "\n" when it does not itself end
      in '\r', and stripping again gives the line back. */
  lemma StripLineEnding(line: string)
    ensures StripTrailingNewline(line + "\r\n") == line
    ensures (|line| == 0 || line[|line| - 1] != '\r') ==> StripTrailingNewline(line + "\n") == line
  {
    var crlf := line + "\r\n";
    assert crlf[|crlf| - 2..] == "\r\n";
    assert crlf[..|crlf| - 2] == line;
    var lf := line + "\n";
    assert lf[..|lf| - 1] == line;
    if |line| == 0 || line[|line| - 1] != '\r' {
      assert !(|lf| >= 2 && lf[|lf| - 2..] == "\r\n") by {
        if |lf| >= 2 {
          assert lf[|lf| - 2..][0] == lf[|lf| - 2] == line[|line| - 1];
        }
      }
    }
  }

  /** src/lib.rs:127-134: the stripped first line is submitted as a name only
      when it is a valid username; otherwise the session ends. */
  function AdmitName(line: string): (r: Option<string>)
    ensures r.Some? ==> ValidUsername(r.value)
    ensures r.Some? ==> line == r.value || line == r.value + "\n" || line == r.value + "\r\n"
    ensures r.None? <==> !ValidUsername(StripTrailingNewline(line))
  {
    var name := StripTrailingNewline(line);
    assert line == name || line == name + "\n" || line == name + "\r\n" by {
      if |line| >= 2 && line[|line| - 2..] == "\r\n" {
        assert line == line[..|line| - 2] + line[|line| - 2..];
      } else if |line| >= 1 && line[|line| - 1] == '\n' {
        assert line == line[..|line| - 1] + [line[|line| - 1]];
      }
    }
    if ValidUsername(name) then Some(name) else None
  }

  /** A valid name typed with or without a line terminator is admitted as is. */
  lemma AdmitTypedName(name: string)
    requires ValidUsername(name)
    ensures AdmitName(name) == Some(name)
    ensures AdmitName(name + "\n") == Some(name)
    ensures AdmitName(name + "\r\n") == Some(name)
  {
    assert IsAsciiAlphanumeric(name[|name| - 1]);
    StripLineEnding(name);
    assert name[|name| - 1..] != "\n";
    assert !(|name| >= 2 && name[|name| - 2..] == "\r\n") by {
      if |name| >= 2 {
        assert name[|name| - 2..][1] == name[|name| - 1];
      }
    }
  }

  /** src/lib.rs:146-156: the text a session writes for each command it
      receives; `SetName` is not expected and writes nothing. */
  function ClientLine(cmd: Command): (r: Option<string>)
    ensures r.None? <==> cmd.SetName?
    ensures cmd.Message? ==> r == Some(ChatText(cmd.from, cmd.text))
    ensures cmd.Announcement? ==> r == Some(cmd.text)
    ensures cmd.Disconnect? ==> r == Some(cmd.subject)
  {
    match cmd
    case SetName(_, _) => None
    case Message(from, msg) => Some(ChatText(from, msg))
    case Announcement(msg) => Some(msg)
    case Disconnect(msg) => Some(msg)
  }

  // ---------------------------------------------------------------------------
  // The manager

  /** Every entry is stored under its own name and marked connected. */
  predicate UsersWellFormed(users: map<string, User>) {
    forall k | k in users :: users[k].name == k && users[k].connected
  }

  function Channels(users: map<string, User>): (chans: map<string, HandleId>)
    ensures chans.Keys == users.Keys
    ensures forall k | k in users :: chans[k] == users[k].channel
  {
    map k | k in users :: users[k].channel
  }

  /** The membership table after one command. */
  function NextUsers(users: map<string, User>, cmd: Command): (r: map<string, User>)
  {
    match cmd
    case SetName(name, client) =>
      if name in users then users else users[name := User(name, true, client)]
    case Message(_, _) => users
    case Disconnect(from) => users - {from}
    case Announcement(_) => users
  }

  /** What handle `h` receives while the manager processes `cmd` against `users`. */
  ghost function Delivered(users: map<string, User>, cmd: Command, h: HandleId): (r: seq<Command>)
  {
    match cmd
    case SetName(name, client) =>
      if name in users then
        if h == client then [Command.Disconnect(name + " already exists")] else []
      else
        (if h == client then [Announcement(ContentsText(SortedListing(users.Keys)) + "\n")] else [])
        + Repeat(Announcement(EnteredText(name) + "\n"), Copies(Channels(NextUsers(users, cmd)), name, h))
    case Message(from, text) =>
      Repeat(Command.Message(from, text), Copies(Channels(users), from, h))
    case Disconnect(from) =>
      Repeat(Announcement(LeftText(from) + "\n"), Copies(Channels(users - {from}), from, h))
    case Announcement(_) => []
  }

  function UsersAfter(users: map<string, User>, cmds: seq<Command>): map<string, User>
    decreases |cmds|
  {
    if cmds == [] then users else UsersAfter(NextUsers(users, cmds[0]), cmds[1..])
  }

  ghost function DeliveredAll(users: map<string, User>, cmds: seq<Command>, h: HandleId): seq<Command>
    decreases |cmds|
  {
    if cmds == [] then []
    else Delivered(users, cmds[0], h) + DeliveredAll(NextUsers(users, cmds[0]), cmds[1..], h)
  }

  lemma {:induction false} UsersAfterSnoc(users: map<string, User>, cmds: seq<Command>, cmd: Command)
    ensures UsersAfter(users, cmds + [cmd]) == NextUsers(UsersAfter(users, cmds), cmd)
    decreases |cmds|
  {
    if cmds == [] {
      assert [cmd][1..] == [];
    } else {
      assert (cmds + [cmd])[1..] == cmds[1..] + [cmd];
      UsersAfterSnoc(NextUsers(users, cmds[0]), cmds[1..], cmd);
    }
  }

  lemma {:induction false} DeliveredAllSnoc(users: map<string, User>, cmds: seq<Command>, cmd: Command, h: HandleId)
    ensures DeliveredAll(users, cmds + [cmd], h)
            == DeliveredAll(users, cmds, h) + Delivered(UsersAfter(users, cmds), cmd, h)
    decreases |cmds|
  {
    if cmds == [] {
      assert [cmd][1..] == [];
    } else {
      assert (cmds + [cmd])[1..] == cmds[1..] + [cmd];
      DeliveredAllSnoc(NextUsers(users, cmds[0]), cmds[1..], cmd, h);
    }
  }

  lemma RunStep(users: map<string, User>, done: seq<Command>, cmd: Command,
                base: map<HandleId, seq<Command>>, before: map<HandleId, seq<Command>>,
                after: map<HandleId, seq<Command>>)
    requires forall h :: Pending(before, h) == Pending(base, h) + DeliveredAll(users, done, h)
    requires forall h :: Pending(after, h) == Pending(before, h) + Delivered(UsersAfter(users, done), cmd, h)
    ensures UsersAfter(users, done + [cmd]) == NextUsers(UsersAfter(users, done), cmd)
    ensures forall h :: Pending(after, h) == Pending(base, h) + DeliveredAll(users, done + [cmd], h)
  {
    forall h ensures Pending(after, h) == Pending(base, h) + DeliveredAll(users, done + [cmd], h) {
      DeliveredAllSnoc(users, done, cmd, h);
    }
    UsersAfterSnoc(users, done, cmd);
  }

  class Manager {
    var users: map<string, User>
    var outbox: map<HandleId, seq<Command>>

    ghost predicate Valid()
      reads this
    {
      UsersWellFormed(users)
    }

    constructor ()
      ensures Valid()
      ensures users == map[] && outbox == map[]
    {
      users := map[];
      outbox := map[];
    }

    /** The `for (key, user) in &users` loops of `process_manager`: `msg` to
        every member whose key is not `from`. */
    method SendToAllExcept(from: string, msg: Command)
      requires Valid()
      modifies this`outbox
      ensures forall h :: Pending(outbox, h) == Pending(old(outbox), h) + Repeat(msg, Copies(Channels(users), from, h))
    {
      var members := users;
      ghost var chans := Channels(members);
      var out := outbox;
      var rest := members.Keys;
      ghost var done: set<string> := {};
      while rest != {}
        invariant rest !! done && rest + done == members.Keys
        invariant forall h :: Pending(out, h) == Pending(old(outbox), h) + Repeat(msg, CopiesAmong(chans, done, from, h))
        decreases rest
      {
        var key :| key in rest;
        var user := members[key];
        ghost var before := out;
        if key != from {
          out := Send(out, user.channel, msg);
        }
        BroadcastStep(old(outbox), before, out, chans, done, key, from, msg);
        rest := rest - {key};
        done := done + {key};
      }
      assert done == chans.Keys;
      outbox := out;
    }

    /** The `SetName` arm of `process_manager`. */
    method HandleSetName(name: string, client: HandleId)
      requires Valid()
      modifies this
      ensures Valid()
      ensures users == NextUsers(old(users), SetName(name, client))
      ensures forall h :: Pending(outbox, h) == Pending(old(outbox), h) + Delivered(old(users), SetName(name, client), h)
    {
      if name in users {
        outbox := Send(outbox, client, Command.Disconnect(name + " already exists"));
      } else {
        ghost var before := users;
        ghost var sent := outbox;
        users := users[name := User(name, true, client)];
        assert users.Keys - {name} == before.Keys;
        var contained := SortedNames(users.Keys - {name});
        var contents := Announcement(ContentsText(contained) + "\n");
        outbox := Send(outbox, client, contents);
        SendToAllExcept(name, Announcement(EnteredText(name) + "\n"));
        forall h ensures Pending(outbox, h) == Pending(sent, h) + Delivered(before, SetName(name, client), h) {
          assert Delivered(before, SetName(name, client), h)
                 == (if h == client then [contents] else [])
                    + Repeat(Announcement(EnteredText(name) + "\n"), Copies(Channels(users), name, h));
        }
      }
    }

    /** The `Disconnect` arm of `process_manager`. */
    method HandleDisconnect(from: string)
      requires Valid()
      modifies this
      ensures Valid()
      ensures users == NextUsers(old(users), Command.Disconnect(from))
      ensures forall h :: Pending(outbox, h) == Pending(old(outbox), h) + Delivered(old(users), Command.Disconnect(from), h)
    {
      users := users - {from};
      SendToAllExcept(from, Announcement(LeftText(from) + "\n"));
    }

    /** One turn of `process_manager`'s loop. */
    method Step(cmd: Command)
      requires Valid()
      modifies this
      ensures Valid()
      ensures users == NextUsers(old(users), cmd)
      ensures forall h :: Pending(outbox, h) == Pending(old(outbox), h) + Delivered(old(users), cmd, h)
    {
      match cmd {
        case SetName(name, client) =>
          HandleSetName(name, client);
        case Message(from, text) =>
          SendToAllExcept(from, Command.Message(from, text));
        case Disconnect(from) =>
          HandleDisconnect(from);
        case Announcement(_) =>
      }
    }

    /** `process_manager`: the commands in arrival order, one at a time. */
    method Run(cmds: seq<Command>)
      requires Valid()
      modifies this
      ensures Valid()
      ensures users == UsersAfter(old(users), cmds)
      ensures forall h :: Pending(outbox, h) == Pending(old(outbox), h) + DeliveredAll(old(users), cmds, h)
    {
      for i := 0 to |cmds|
        invariant Valid()
        invariant users == UsersAfter(old(users), cmds[..i])
        invariant forall h :: Pending(outbox, h) == Pending(old(outbox), h) + DeliveredAll(old(users), cmds[..i], h)
      {
        ghost var before := outbox;
        Step(cmds[i]);
        RunStep(old(users), cmds[..i], cmds[i], old(outbox), before, outbox);
        assert cmds[..i + 1] == cmds[..i] + [cmds[i]];
      }
      assert cmds[..|cmds|] == cmds;
    }
  }

  // ---------------------------------------------------------------------------
  // Properties of one command

  /** No command rebinds an existing member; only `Disconnect` removes one,
      and only the named one. */
  lemma StepKeepsEntries(users: map<string, User>, cmd: Command)
    requires UsersWellFormed(users)
    ensures UsersWellFormed(NextUsers(users, cmd))
    ensures forall k | k in users && k in NextUsers(users, cmd) :: NextUsers(users, cmd)[k] == users[k]
    ensures forall k | k in users && k !in NextUsers(users, cmd) :: cmd == Command.Disconnect(k)
  {
  }

  /** A `SetName` for a taken name changes nothing and tells only the new
      session, with the reason "<name> already exists". */
  lemma SetNameTaken(users: map<string, User>, name: string, client: HandleId)
    requires name in users
    ensures NextUsers(users, SetName(name, client)) == users
    ensures Delivered(users, SetName(name, client), client) == [Command.Disconnect(name + " already exists")]
    ensures forall h | h != client :: Delivered(users, SetName(name, client), h) == []
  {
  }

  /** A `SetName` for a free name binds it to the new handle.  The new session
      gets the room-contents line for the names present before (never its own)
      and no announcement; every earlier member gets the announcement exactly
      once; nobody else gets anything. */
  lemma SetNameAccepted(users: map<string, User>, name: string, client: HandleId)
    requires UsersWellFormed(users) && name !in users
    requires DistinctHandles(Channels(users)) && client !in Channels(users).Values
    ensures NextUsers(users, SetName(name, client)) == users[name := User(name, true, client)]
    ensures DistinctHandles(Channels(NextUsers(users, SetName(name, client))))
    ensures name !in SortedListing(users.Keys)
    ensures Delivered(users, SetName(name, client), client)
            == [Announcement(ContentsText(SortedListing(users.Keys)) + "\n")]
    ensures forall k | k in users ::
              Delivered(users, SetName(name, client), users[k].channel) == [Announcement(EnteredText(name) + "\n")]
    ensures forall h | h != client && h !in Channels(users).Values :: Delivered(users, SetName(name, client), h) == []
  {
    var cmd := SetName(name, client);
    var chans := Channels(users[name := User(name, true, client)]);
    assert chans == Channels(users)[name := client];
    BindFresh(Channels(users), name, client);
    CopiesOfMember(chans, name, name);
    forall k | k in users
      ensures Delivered(users, cmd, users[k].channel) == [Announcement(EnteredText(name) + "\n")]
    {
      assert Channels(users)[k] in Channels(users).Values;
      CopiesOfMember(chans, name, k);
    }
    forall h | h != client && h !in Channels(users).Values
      ensures Delivered(users, cmd, h) == []
    {
      CopiesOfStranger(chans, name, h);
    }
  }

  /** The manager itself does not validate names: validity is left to the
      client (src/lib.rs:131-134), so a name with a space is accepted here. */
  lemma SetNameSkipsValidation()
    ensures !ValidUsername("a b")
    ensures "a b" in NextUsers(map[], SetName("a b", 0))
  {
    assert !IsAsciiAlphanumeric("a b"[1]);
  }

  /** A chat message is forwarded unchanged, exactly once, to every member
      except its sender, even if the sender is not a member; the receiving
      session writes it as "[from] text", the line src/room.rs sends. */
  lemma MessageForwarded(users: map<string, User>, from: string, text: string)
    requires DistinctHandles(Channels(users))
    ensures NextUsers(users, Command.Message(from, text)) == users
    ensures forall k | k in users ::
              Delivered(users, Command.Message(from, text), users[k].channel)
              == if k == from then [] else [Command.Message(from, text)]
    ensures forall h | h !in Channels(users).Values :: Delivered(users, Command.Message(from, text), h) == []
    ensures ClientLine(Command.Message(from, text)) == Some(ChatText(from, text))
  {
    forall k | k in users
      ensures Delivered(users, Command.Message(from, text), users[k].channel)
              == if k == from then [] else [Command.Message(from, text)]
    {
      CopiesOfMember(Channels(users), from, k);
    }
    forall h | h !in Channels(users).Values
      ensures Delivered(users, Command.Message(from, text), h) == []
    {
      CopiesOfStranger(Channels(users), from, h);
    }
  }

  /** `Disconnect` removes the name (a no-op when it is absent) and announces
      the departure exactly once to every remaining member; the name is then
      free, so the next `SetName` for it is accepted. */
  lemma DisconnectRemoves(users: map<string, User>, from: string, client: HandleId)
    requires DistinctHandles(Channels(users))
    ensures NextUsers(users, Command.Disconnect(from)) == users - {from}
    ensures from !in users ==> NextUsers(users, Command.Disconnect(from)) == users
    ensures forall k | k in users && k != from ::
              Delivered(users, Command.Disconnect(from), users[k].channel) == [Announcement(LeftText(from) + "\n")]
    ensures from in users ==> Delivered(users, Command.Disconnect(from), users[from].channel) == []
    ensures forall h | h !in Channels(users).Values :: Delivered(users, Command.Disconnect(from), h) == []
    ensures forall h :: Delivered(users, Command.Disconnect(from), h)
                        == Repeat(Announcement(LeftText(from) + "\n"), Copies(Channels(users), from, h))
    ensures DistinctHandles(Channels(NextUsers(users, Command.Disconnect(from))))
    ensures NextUsers(NextUsers(users, Command.Disconnect(from)), SetName(from, client))
            == (users - {from})[from := User(from, true, client)]
  {
    var rest := Channels(users - {from});
    assert rest == Channels(users) - {from};
    assert DistinctHandles(rest);
    // After the removal the `key != from` test of the departure loop is
    // redundant: it reaches the same handles as a broadcast over the full table.
    forall h ensures Delivered(users, Command.Disconnect(from), h)
                     == Repeat(Announcement(LeftText(from) + "\n"), Copies(Channels(users), from, h))
    {
      CopiesIgnoreSender(Channels(users), from, 0, h);
    }
    forall h | h !in Channels(users).Values
      ensures Delivered(users, Command.Disconnect(from), h) == []
    {
      CopiesOfStranger(Channels(users), from, h);
    }
    forall k | k in users && k != from
      ensures Delivered(users, Command.Disconnect(from), users[k].channel) == [Announcement(LeftText(from) + "\n")]
    {
      CopiesOfMember(rest, from, k);
    }
    if from in users {
      assert users[from].channel !in rest.Values by {
        forall j | j in rest ensures rest[j] != users[from].channel {
          assert Channels(users)[j] == rest[j];
        }
      }
      CopiesOfStranger(rest, from, users[from].channel);
    }
  }

  /** An `Announcement` sent to the manager changes nothing and sends nothing. */
  lemma AnnouncementIgnored(users: map<string, User>, text: string, h: HandleId)
    ensures NextUsers(users, Announcement(text)) == users
    ensures Delivered(users, Announcement(text), h) == []
  {
  }

  // ---------------------------------------------------------------------------
  // Properties of whole runs

  /** A command sequence whose every `SetName` carries a name produced by
      the client's admission step. */
  ghost predicate AdmittedNames(cmds: seq<Command>) {
    forall i | 0 <= i < |cmds| && cmds[i].SetName? :: exists line :: AdmitName(line) == Some(cmds[i].name)
  }

  /** Given the client's admission step, every key of the table stays a
      valid username over any run. */
  lemma {:induction false} AdmittedRunKeepsNamesValid(users: map<string, User>, cmds: seq<Command>)
    requires forall k | k in users :: ValidUsername(k)
    requires AdmittedNames(cmds)
    ensures forall k | k in UsersAfter(users, cmds) :: ValidUsername(k)
    decreases |cmds|
  {
    if cmds != [] {
      if cmds[0].SetName? {
        var line :| AdmitName(line) == Some(cmds[0].name);
      }
      assert AdmittedNames(cmds[1..]) by {
        forall i | 0 <= i < |cmds[1..]| && cmds[1..][i].SetName?
          ensures exists line :: AdmitName(line) == Some(cmds[1..][i].name)
        {
          assert cmds[1..][i] == cmds[i + 1];
        }
      }
      AdmittedRunKeepsNamesValid(NextUsers(users, cmds[0]), cmds[1..]);
    }
  }

  /** Over any run the table stays well formed, and a member's entry stays
      exactly as it was unless the run disconnects that member. */
  lemma {:induction false} RunKeepsEntries(users: map<string, User>, cmds: seq<Command>)
    requires UsersWellFormed(users)
    ensures UsersWellFormed(UsersAfter(users, cmds))
    ensures forall k | k in users && (forall i | 0 <= i < |cmds| :: cmds[i] != Command.Disconnect(k)) ::
              k in UsersAfter(users, cmds) && UsersAfter(users, cmds)[k] == users[k]
    decreases |cmds|
  {
    if cmds != [] {
      StepKeepsEntries(users, cmds[0]);
      var next := NextUsers(users, cmds[0]);
      RunKeepsEntries(next, cmds[1..]);
      forall k | k in users && (forall i | 0 <= i < |cmds| :: cmds[i] != Command.Disconnect(k))
        ensures k in UsersAfter(users, cmds) && UsersAfter(users, cmds)[k] == users[k]
      {
        assert cmds[0] != Command.Disconnect(k);
        assert forall i | 0 <= i < |cmds[1..]| :: cmds[1..][i] != Command.Disconnect(k) by {
          forall i | 0 <= i < |cmds[1..]| ensures cmds[1..][i] != Command.Disconnect(k) {
            assert cmds[1..][i] == cmds[i + 1];
          }
        }
      }
    }
  }

  /** A name absent from the table can only come back through a `SetName`:
      if it is present at the end, some command of the run is a `SetName`
      for it. */
  lemma {:induction false} RebindOnlyBySetName(users: map<string, User>, cmds: seq<Command>, k: string)
    requires k !in users
    requires k in UsersAfter(users, cmds)
    ensures exists i :: 0 <= i < |cmds| && cmds[i].SetName? && cmds[i].name == k
    decreases |cmds|
  {
    if k in NextUsers(users, cmds[0]) {
      assert cmds[0].SetName? && cmds[0].name == k;
    } else {
      RebindOnlyBySetName(NextUsers(users, cmds[0]), cmds[1..], k);
      var i :| 0 <= i < |cmds[1..]| && cmds[1..][i].SetName? && cmds[1..][i].name == k;
      assert cmds[i + 1] == cmds[1..][i];
    }
  }

  /** Scenario: a member leaves and a new session reclaims the name; the new
      session is bound to the name and sees the others, not itself, listed. */
  lemma ReconnectAfterLeave(users: map<string, User>, name: string, client: HandleId)
    requires name in users
    ensures var cmds := [Command.Disconnect(name), SetName(name, client)];
            && UsersAfter(users, cmds) == (users - {name})[name := User(name, true, client)]
            && Delivered(NextUsers(users, cmds[0]), cmds[1], client)[0]
               == Announcement(ContentsText(SortedListing(users.Keys - {name})) + "\n")
  {
    var cmds := [Command.Disconnect(name), SetName(name, client)];
    assert cmds[1..] == [SetName(name, client)];
    assert cmds[1..][1..] == [];
    assert NextUsers(users, cmds[0]) == users - {name};
    assert UsersAfter(users, cmds) == UsersAfter(users - {name}, cmds[1..]);
  }
}
