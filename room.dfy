/** The room manager of src/room.rs: one loop that owns the membership table
    and handles `Join`, `Message` and `Disconnect` one command at a time. */
module Room {
  import opened Fanout
  import opened Names
  import opened Listing

  /** A member: its name and the handle its session reads from. */
  datatype User = User(name: string, channel: HandleId)

  /** What a session asks of the manager. */
  datatype RoomCommand =
    | Join(name: string, client: HandleId)
    | Message(name: string, msg: string)
    | Disconnect(name: string)

  /** What the manager sends a session. */
  datatype ClientCommand =
    | Message(text: string)
    | Disconnect

  /** Every entry is stored under its own name, and that name is valid. */
  predicate UsersValid(users: map<string, User>) {
    forall k | k in users :: users[k].name == k && ValidUsername(k)
  }

  /** Each member's delivery handle.  `Channels`, `UsersAfter`, `DeliveredAll`
      and the lemmas about them appear again in module `Lib` over that
      version's own `User` and `Command` types; the two versions share no
      types in the source either. */
  function Channels(users: map<string, User>): (chans: map<string, HandleId>)
    ensures chans.Keys == users.Keys
    ensures forall k | k in users :: chans[k] == users[k].channel
  {
    map k | k in users :: users[k].channel
  }

  /** The admission test of a `Join`. */
  predicate Admits(users: map<string, User>, name: string) {
    ValidUsername(name) && name !in users
  }

  /** The membership table after one command. */
  function NextUsers(users: map<string, User>, cmd: RoomCommand): (r: map<string, User>)
  {
    match cmd
    case Join(name, client) =>
      if Admits(users, name) then users[name := User(name, client)] else users
    case Message(_, _) => users
    case Disconnect(_) => users
  }

  /** What handle `h` receives while the manager processes `cmd` against `users`,
      in the order it receives it. */
  ghost function Delivered(users: map<string, User>, cmd: RoomCommand, h: HandleId): (r: seq<ClientCommand>)
  {
    match cmd
    case Join(name, client) =>
      if Admits(users, name) then
        (if h == client then [ClientCommand.Message(ContentsText(SortedListing(users.Keys)))] else [])
        + Repeat(ClientCommand.Message(EnteredText(name)), Copies(Channels(NextUsers(users, cmd)), name, h))
      else if h == client then [ClientCommand.Disconnect]
      else []
    case Message(name, msg) =>
      Repeat(ClientCommand.Message(ChatText(name, msg)), Copies(Channels(users), name, h))
    case Disconnect(name) =>
      Repeat(ClientCommand.Message(LeftText(name)), Copies(Channels(users), name, h))
  }

  /** The membership table after a sequence of commands. */
  function UsersAfter(users: map<string, User>, cmds: seq<RoomCommand>): map<string, User>
    decreases |cmds|
  {
    if cmds == [] then users else UsersAfter(NextUsers(users, cmds[0]), cmds[1..])
  }

  /** What handle `h` receives while the manager processes `cmds`. */
  ghost function DeliveredAll(users: map<string, User>, cmds: seq<RoomCommand>, h: HandleId): seq<ClientCommand>
    decreases |cmds|
  {
    if cmds == [] then []
    else Delivered(users, cmds[0], h) + DeliveredAll(NextUsers(users, cmds[0]), cmds[1..], h)
  }

  /** Processing one more command extends the history by that command's effect. */
  lemma {:induction false} UsersAfterSnoc(users: map<string, User>, cmds: seq<RoomCommand>, cmd: RoomCommand)
    ensures UsersAfter(users, cmds + [cmd]) == NextUsers(UsersAfter(users, cmds), cmd)
    decreases |cmds|
  {
    if cmds == [] {
      assert [cmd][1..] == [];
    } else {
      assert (cmds + [cmd])[1..] == cmds[1..] + [cmd];
      UsersAfterSnoc(NextUsers(users, cmds[0]), cmds[1..], cmd);
    }
  }

  lemma {:induction false} DeliveredAllSnoc(users: map<string, User>, cmds: seq<RoomCommand>, cmd: RoomCommand, h: HandleId)
    ensures DeliveredAll(users, cmds + [cmd], h)
            == DeliveredAll(users, cmds, h) + Delivered(UsersAfter(users, cmds), cmd, h)
    decreases |cmds|
  {
    if cmds == [] {
      assert [cmd][1..] == [];
    } else {
      assert (cmds + [cmd])[1..] == cmds[1..] + [cmd];
      DeliveredAllSnoc(NextUsers(users, cmds[0]), cmds[1..], cmd, h);
    }
  }

  /** Appending the effect of the next command to the history so far gives the history including it. */
  lemma RunStep(users: map<string, User>, done: seq<RoomCommand>, cmd: RoomCommand,
                base: map<HandleId, seq<ClientCommand>>, before: map<HandleId, seq<ClientCommand>>,
                after: map<HandleId, seq<ClientCommand>>)
    requires forall h :: Pending(before, h) == Pending(base, h) + DeliveredAll(users, done, h)
    requires forall h :: Pending(after, h) == Pending(before, h) + Delivered(UsersAfter(users, done), cmd, h)
    ensures UsersAfter(users, done + [cmd]) == NextUsers(UsersAfter(users, done), cmd)
    ensures forall h :: Pending(after, h) == Pending(base, h) + DeliveredAll(users, done + [cmd], h)
  {
    forall h ensures Pending(after, h) == Pending(base, h) + DeliveredAll(users, done + [cmd], h) {
      DeliveredAllSnoc(users, done, cmd, h);
    }
    UsersAfterSnoc(users, done, cmd);
  }

  class RoomManager {
    var users: map<string, User>
    /** What has been sent into each handle, standing for the channels' queues. */
    var outbox: map<HandleId, seq<ClientCommand>>

    ghost predicate Valid()
      reads this
    {
      UsersValid(users)
    }

    constructor ()
      ensures Valid()
      ensures users == map[] && outbox == map[]
    {
      users := map[];
      outbox := map[];
    }

    /** `send_to_others`: `msg` once to every member not named `from`, in
        whatever order the map yields them. */
    method SendToOthers(from: string, msg: string)
      requires Valid()
      modifies this`outbox
      ensures forall h :: Pending(outbox, h)
                == Pending(old(outbox), h) + Repeat(ClientCommand.Message(msg), Copies(Channels(users), from, h))
    {
      var members := users;
      ghost var chans := Channels(members);
      var out := outbox;
      var rest := members.Keys;
      ghost var done: set<string> := {};
      while rest != {}
        invariant rest !! done && rest + done == members.Keys
        invariant forall h :: Pending(out, h)
                    == Pending(old(outbox), h) + Repeat(ClientCommand.Message(msg), CopiesAmong(chans, done, from, h))
        decreases rest
      {
        var k :| k in rest;
        var user := members[k];
        ghost var before := out;
        if from != user.name {
          out := Send(out, user.channel, ClientCommand.Message(msg));
        }
        BroadcastStep(old(outbox), before, out, chans, done, k, from, ClientCommand.Message(msg));
        rest := rest - {k};
        done := done + {k};
      }
      assert done == chans.Keys;
      outbox := out;
    }

    /** The `Join` arm of `room_manager`. */
    method HandleJoin(name: string, client: HandleId)
      requires Valid()
      modifies this
      ensures Valid()
      ensures users == NextUsers(old(users), RoomCommand.Join(name, client))
      ensures forall h :: Pending(outbox, h) == Pending(old(outbox), h) + Delivered(old(users), RoomCommand.Join(name, client), h)
    {
      if ValidUsername(name) && name !in users {
        ghost var before := users;
        ghost var sent := outbox;
        var contained := SortedNames(users.Keys);
        var contents := ClientCommand.Message(ContentsText(contained));
        users := users[name := User(name, client)];
        outbox := Send(outbox, client, contents);
        SendToOthers(name, EnteredText(name));
        forall h ensures Pending(outbox, h) == Pending(sent, h) + Delivered(before, RoomCommand.Join(name, client), h) {
          assert Delivered(before, RoomCommand.Join(name, client), h)
                 == (if h == client then [contents] else [])
                    + Repeat(ClientCommand.Message(EnteredText(name)), Copies(Channels(users), name, h));
        }
      } else {
        outbox := Send(outbox, client, ClientCommand.Disconnect);
      }
    }

    /** One turn of `room_manager`'s loop. */
    method Step(cmd: RoomCommand)
      requires Valid()
      modifies this
      ensures Valid()
      ensures users == NextUsers(old(users), cmd)
      ensures forall h :: Pending(outbox, h) == Pending(old(outbox), h) + Delivered(old(users), cmd, h)
    {
      match cmd {
        case Join(name, client) =>
          HandleJoin(name, client);
        case Message(name, msg) =>
          SendToOthers(name, ChatText(name, msg));
        case Disconnect(name) =>
          SendToOthers(name, LeftText(name));
      }
    }

    /** `room_manager`: the commands in arrival order, one at a time. */
    method Run(cmds: seq<RoomCommand>)
      requires Valid()
      modifies this
      ensures Valid()
      ensures users == UsersAfter(old(users), cmds)
      ensures forall h :: Pending(outbox, h) == Pending(old(outbox), h) + DeliveredAll(old(users), cmds, h)
    {
      for i := 0 to |cmds|
        invariant Valid()
        invariant users == UsersAfter(old(users), cmds[..i])
        invariant forall h :: Pending(outbox, h) == Pending(old(outbox), h) + DeliveredAll(old(users), cmds[..i], h)
      {
        ghost var before := outbox;
        Step(cmds[i]);
        RunStep(old(users), cmds[..i], cmds[i], old(outbox), before, outbox);
        assert cmds[..i + 1] == cmds[..i] + [cmds[i]];
      }
      assert cmds[..|cmds|] == cmds;
    }
  }

  // ---------------------------------------------------------------------------
  // Properties of one command

  /** Every command keeps the table well formed and never drops or rebinds a
      member: names only ever accumulate. */
  lemma StepKeepsMembers(users: map<string, User>, cmd: RoomCommand)
    requires UsersValid(users)
    ensures UsersValid(NextUsers(users, cmd))
    ensures forall k | k in users :: k in NextUsers(users, cmd) && NextUsers(users, cmd)[k] == users[k]
    ensures NextUsers(users, cmd).Keys == users.Keys
            || (cmd.Join? && NextUsers(users, cmd).Keys == users.Keys + {cmd.name})
  {
  }

  /** An accepted `Join` binds exactly the new name to the joiner's handle.  The
      joiner gets the room-contents line and no announcement; every earlier
      member gets the announcement exactly once; nobody else gets anything. */
  lemma JoinAccepted(users: map<string, User>, name: string, client: HandleId)
    requires UsersValid(users) && Admits(users, name)
    requires DistinctHandles(Channels(users)) && client !in Channels(users).Values
    ensures NextUsers(users, RoomCommand.Join(name, client)) == users[name := User(name, client)]
    ensures DistinctHandles(Channels(NextUsers(users, RoomCommand.Join(name, client))))
    ensures Delivered(users, RoomCommand.Join(name, client), client)
            == [ClientCommand.Message(ContentsText(SortedListing(users.Keys)))]
    ensures forall k | k in users ::
              Delivered(users, RoomCommand.Join(name, client), users[k].channel)
              == [ClientCommand.Message(EnteredText(name))]
    ensures forall h | h != client && h !in Channels(users).Values ::
              Delivered(users, RoomCommand.Join(name, client), h) == []
  {
    var cmd := RoomCommand.Join(name, client);
    var after := users[name := User(name, client)];
    var chans := Channels(after);
    assert chans == Channels(users)[name := client];
    BindFresh(Channels(users), name, client);
    CopiesOfMember(chans, name, name);
    forall k | k in users
      ensures Delivered(users, cmd, users[k].channel) == [ClientCommand.Message(EnteredText(name))]
    {
      assert Channels(users)[k] in Channels(users).Values;
      CopiesOfMember(chans, name, k);
    }
    forall h | h != client && h !in Channels(users).Values
      ensures Delivered(users, cmd, h) == []
    {
      CopiesOfStranger(chans, name, h);
    }
  }

  /** The joiner's room-contents line lists the names present before the join,
      ascending, without the joiner, and can be read back into that list. */
  lemma JoinSnapshot(users: map<string, User>, name: string)
    requires UsersValid(users) && Admits(users, name)
    ensures var names := SortedListing(users.Keys);
            && StrictlySorted(names)
            && (forall x :: x in names <==> x in users)
            && name !in names
            && SplitNames(ContentsText(names)[|ContentsHeader|..]) == names
  {
    var names := SortedListing(users.Keys);
    ContentsRoundTrip(names);
  }

  /** A `Join` with an invalid or taken name changes nothing and sends exactly
      one `Disconnect`, to the joiner's handle. */
  lemma JoinRejected(users: map<string, User>, name: string, client: HandleId)
    requires !Admits(users, name)
    ensures NextUsers(users, RoomCommand.Join(name, client)) == users
    ensures Delivered(users, RoomCommand.Join(name, client), client) == [ClientCommand.Disconnect]
    ensures forall h | h != client :: Delivered(users, RoomCommand.Join(name, client), h) == []
  {
  }

  /** A chat message goes, formatted as "[name] msg", exactly once to every
      member except `name`, whether or not `name` is a member. */
  lemma MessageDelivery(users: map<string, User>, name: string, msg: string)
    requires UsersValid(users) && DistinctHandles(Channels(users))
    ensures NextUsers(users, RoomCommand.Message(name, msg)) == users
    ensures forall k | k in users ::
              Delivered(users, RoomCommand.Message(name, msg), users[k].channel)
              == if k == name then [] else [ClientCommand.Message(ChatText(name, msg))]
    ensures forall h | h !in Channels(users).Values :: Delivered(users, RoomCommand.Message(name, msg), h) == []
  {
    forall k | k in users
      ensures Delivered(users, RoomCommand.Message(name, msg), users[k].channel)
              == if k == name then [] else [ClientCommand.Message(ChatText(name, msg))]
    {
      CopiesOfMember(Channels(users), name, k);
    }
    forall h | h !in Channels(users).Values
      ensures Delivered(users, RoomCommand.Message(name, msg), h) == []
    {
      CopiesOfStranger(Channels(users), name, h);
    }
  }

  /** A `Disconnect` announces the departure exactly once to every member
      except the one leaving, and leaves the table as it was: the name stays
      taken. */
  lemma DisconnectDelivery(users: map<string, User>, name: string)
    requires UsersValid(users) && DistinctHandles(Channels(users))
    ensures NextUsers(users, RoomCommand.Disconnect(name)) == users
    ensures forall k | k in users ::
              Delivered(users, RoomCommand.Disconnect(name), users[k].channel)
              == if k == name then [] else [ClientCommand.Message(LeftText(name))]
    ensures forall h | h !in Channels(users).Values :: Delivered(users, RoomCommand.Disconnect(name), h) == []
  {
    forall k | k in users
      ensures Delivered(users, RoomCommand.Disconnect(name), users[k].channel)
              == if k == name then [] else [ClientCommand.Message(LeftText(name))]
    {
      CopiesOfMember(Channels(users), name, k);
    }
    forall h | h !in Channels(users).Values
      ensures Delivered(users, RoomCommand.Disconnect(name), h) == []
    {
      CopiesOfStranger(Channels(users), name, h);
    }
  }

  // ---------------------------------------------------------------------------
  // Properties of whole runs

  /** Over any run the table stays well formed and no member is ever removed
      or rebound. */
  lemma {:induction false} RunKeepsMembers(users: map<string, User>, cmds: seq<RoomCommand>)
    requires UsersValid(users)
    ensures UsersValid(UsersAfter(users, cmds))
    ensures forall k | k in users :: k in UsersAfter(users, cmds) && UsersAfter(users, cmds)[k] == users[k]
    decreases |cmds|
  {
    if cmds != [] {
      StepKeepsMembers(users, cmds[0]);
      RunKeepsMembers(NextUsers(users, cmds[0]), cmds[1..]);
    }
  }

  /** Because `Disconnect` keeps the entry, a member who left cannot join again
      under the same name: the new session is told to disconnect and the table
      is unchanged. */
  lemma RejoinRefused(users: map<string, User>, name: string, client: HandleId)
    requires UsersValid(users) && name in users
    requires client !in Channels(users).Values
    ensures UsersAfter(users, [RoomCommand.Disconnect(name), RoomCommand.Join(name, client)]) == users
    ensures DeliveredAll(users, [RoomCommand.Disconnect(name), RoomCommand.Join(name, client)], client)
            == [ClientCommand.Disconnect]
  {
    var cmds := [RoomCommand.Disconnect(name), RoomCommand.Join(name, client)];
    assert cmds[1..] == [RoomCommand.Join(name, client)];
    assert cmds[1..][1..] == [];
    assert NextUsers(users, cmds[0]) == users;
    assert NextUsers(users, cmds[1]) == users;
    assert UsersAfter(users, cmds[1..][1..]) == users;
    assert UsersAfter(users, cmds[1..]) == users;
    CopiesOfStranger(Channels(users), name, client);
    assert Delivered(users, cmds[0], client) == [];
    assert Delivered(users, cmds[1], client) == [ClientCommand.Disconnect];
    assert DeliveredAll(users, cmds[1..][1..], client) == [];
    assert DeliveredAll(users, cmds[1..], client) == [ClientCommand.Disconnect];
  }

  /** A departed member's session still receives what others say afterwards,
      since its entry was never removed. */
  lemma DepartedStillReceives(users: map<string, User>, gone: string, speaker: string, msg: string)
    requires UsersValid(users) && DistinctHandles(Channels(users))
    requires gone in users && speaker != gone
    ensures Delivered(NextUsers(users, RoomCommand.Disconnect(gone)), RoomCommand.Message(speaker, msg), users[gone].channel)
            == [ClientCommand.Message(ChatText(speaker, msg))]
  {
    CopiesOfMember(Channels(users), speaker, gone);
  }
}
