/** Delivery handles and their outboxes.

    A member's `Sender` is modelled by an opaque handle; what the room manager
    sends into it is appended to that handle's outbox.  Because the source
    iterates a `HashMap`, nothing is said about the order between different
    handles: every statement is about what one handle receives. */
module Fanout {

  /** The sending end of one client's channel. */
  type HandleId = nat

  /** Everything delivered so far to handle `h`. */
  function Pending<M>(outbox: map<HandleId, seq<M>>, h: HandleId): seq<M> {
    if h in outbox then outbox[h] else []
  }

  /** One `send` on handle `h`: `m` is queued behind what `h` already holds
      and no other handle sees anything. */
  function Send<M>(outbox: map<HandleId, seq<M>>, h: HandleId, m: M): (r: map<HandleId, seq<M>>)
    ensures Pending(r, h) == Pending(outbox, h) + [m]
    ensures forall g | g != h :: Pending(r, g) == Pending(outbox, g)
  {
    outbox[h := Pending(outbox, h) + [m]]
  }

  /** `n` copies of `m`. */
  function Repeat<M>(m: M, n: nat): (r: seq<M>)
    ensures |r| == n
    ensures forall i | 0 <= i < |r| :: r[i] == m
  {
    if n == 0 then [] else Repeat(m, n - 1) + [m]
  }

  /** The members among `among` that a broadcast from `from` reaches through
      handle `h`: every member whose name is not `from` and whose channel is `h`. */
  function Recipients(chans: map<string, HandleId>, among: set<string>, from: string, h: HandleId): set<string> {
    set k | k in among && k in chans && k != from && chans[k] == h
  }

  function CopiesAmong(chans: map<string, HandleId>, among: set<string>, from: string, h: HandleId): nat {
    |Recipients(chans, among, from, h)|
  }

  /** How many copies of a broadcast from `from` to every other member land in handle `h`. */
  function Copies(chans: map<string, HandleId>, from: string, h: HandleId): nat {
    CopiesAmong(chans, chans.Keys, from, h)
  }

  /** No two members share a channel: the situation the source creates, since
      every connection makes its own channel. */
  predicate DistinctHandles(chans: map<string, HandleId>) {
    forall j, k | j in chans && k in chans && j != k :: chans[j] != chans[k]
  }

  /** Visiting one more member `k` adds one copy to `k`'s handle when `k` is
      not the sender, and nothing anywhere else. */
  lemma CopiesAmongAdd(chans: map<string, HandleId>, among: set<string>, k: string, from: string, h: HandleId)
    requires k in chans && k !in among
    ensures CopiesAmong(chans, among + {k}, from, h)
            == CopiesAmong(chans, among, from, h) + (if k != from && chans[k] == h then 1 else 0)
  {
    var before := Recipients(chans, among, from, h);
    var after := Recipients(chans, among + {k}, from, h);
    if k != from && chans[k] == h {
      assert after == before + {k};
    } else {
      assert after == before;
    }
  }

  /** One iteration of a broadcast loop: after visiting member `k` (and sending
      to it unless it is the sender), the outboxes hold `base` plus one copy of
      `msg` per member visited so far that the broadcast reaches. */
  lemma BroadcastStep<M>(base: map<HandleId, seq<M>>, before: map<HandleId, seq<M>>, after: map<HandleId, seq<M>>,
                         chans: map<string, HandleId>, done: set<string>, k: string, from: string, msg: M)
    requires k in chans && k !in done
    requires forall h :: Pending(before, h) == Pending(base, h) + Repeat(msg, CopiesAmong(chans, done, from, h))
    requires k != from ==> after == Send(before, chans[k], msg)
    requires k == from ==> after == before
    ensures forall h :: Pending(after, h) == Pending(base, h) + Repeat(msg, CopiesAmong(chans, done + {k}, from, h))
  {
    forall h ensures Pending(after, h) == Pending(base, h) + Repeat(msg, CopiesAmong(chans, done + {k}, from, h)) {
      CopiesAmongAdd(chans, done, k, from, h);
    }
  }

  /** With distinct channels a broadcast reaches every member except the
      sender exactly once, and the sender not at all. */
  lemma CopiesOfMember(chans: map<string, HandleId>, from: string, k: string)
    requires DistinctHandles(chans) && k in chans
    ensures Copies(chans, from, chans[k]) == if k == from then 0 else 1
  {
    var r := Recipients(chans, chans.Keys, from, chans[k]);
    if k == from {
      assert r == {};
    } else {
      assert r == {k};
    }
  }

  /** Binding a new name to a handle no member uses keeps the handles
      distinct, and leaves every other unused handle unused. */
  lemma BindFresh(chans: map<string, HandleId>, name: string, client: HandleId)
    requires DistinctHandles(chans) && name !in chans && client !in chans.Values
    ensures DistinctHandles(chans[name := client])
    ensures forall h | h != client && h !in chans.Values :: h !in chans[name := client].Values
  {
    var after := chans[name := client];
    forall j, k | j in after && k in after && j != k ensures after[j] != after[k] {
      if j != name && k != name {
        assert after[j] == chans[j] && after[k] == chans[k];
      } else if j == name {
        assert after[k] == chans[k] && chans[k] in chans.Values;
      } else {
        assert after[j] == chans[j] && chans[j] in chans.Values;
      }
    }
    forall h | h != client && h !in chans.Values ensures h !in after.Values {
      forall j | j in after ensures after[j] != h {
        if j != name {
          assert chans[j] in chans.Values;
        }
      }
    }
  }

  /** A handle that belongs to no member receives nothing from a broadcast. */
  lemma CopiesOfStranger(chans: map<string, HandleId>, from: string, h: HandleId)
    requires h !in chans.Values
    ensures Copies(chans, from, h) == 0
  {
    var r := Recipients(chans, chans.Keys, from, h);
    assert forall k | k in r :: chans[k] in chans.Values;
    assert r == {};
  }

  /** Re-binding or removing the sender's own entry does not change who else
      a broadcast from it reaches. */
  lemma CopiesIgnoreSender(chans: map<string, HandleId>, from: string, c: HandleId, h: HandleId)
    ensures Copies(chans[from := c], from, h) == Copies(chans, from, h)
    ensures Copies(chans - {from}, from, h) == Copies(chans, from, h)
  {
    assert Recipients(chans[from := c], (chans[from := c]).Keys, from, h) == Recipients(chans, chans.Keys, from, h);
    assert Recipients(chans - {from}, (chans - {from}).Keys, from, h) == Recipients(chans, chans.Keys, from, h);
  }
}
