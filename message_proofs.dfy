/**
 * `ProcessMessage` and `Update`: how a read is cut into fragments, what is
 * sent back and routed for them, and that a frame keeps the registry
 * invariant.
 */
module MessageProofs {
  import opened Text
  import opened Registry
  import opened RegistryInvariant
  import opened DiscoveryProofs

  /** How many times `m` occurs in `log`. */
  function Count(log: seq<string>, m: string): nat
    decreases |log|
  {
    if log == [] then 0 else (if log[0] == m then 1 else 0) + Count(log[1..], m)
  }

  /** Each of `frags`, in order, routed to `address`. */
  function Routes(frags: seq<string>, address: string): seq<Route>
    decreases |frags|
  {
    if frags == [] then [] else [Route(frags[0], address)] + Routes(frags[1..], address)
  }

  /** `n` heartbeats. */
  function Heartbeats(n: nat): seq<string>
    decreases n
  {
    if n == 0 then [] else [Heartbeat] + Heartbeats(n - 1)
  }

  lemma AppendAssoc<T>(a: seq<T>, b: seq<T>, c: seq<T>)
    ensures a + b + c == a + (b + c)
  {
  }

  lemma {:induction false} CountAppend(log: seq<string>, extra: seq<string>, m: string)
    ensures Count(log + extra, m) == Count(log, m) + Count(extra, m)
    decreases |log|
  {
    if log != [] {
      assert (log + extra)[1..] == log[1..] + extra;
      CountAppend(log[1..], extra, m);
    } else {
      assert log + extra == extra;
    }
  }

  /**
   * The fragments `ProcessMessage` handles are exactly the text before the
   * last separator, each ended by a separator and holding none; the dropped
   * text after the last separator holds none either.
   */
  lemma {:induction false} FragmentsOfRead(received: string)
    ensures received == Terminated(Fragments(received), PacketSeparator) + Leftover(received)
    ensures Free(Leftover(received), PacketSeparator)
    ensures forall k :: 0 <= k < |Fragments(received)| ==> Free(Fragments(received)[k], PacketSeparator)
    ensures forall k :: 0 <= k < |Fragments(received)| ==> EndsAtFirst(Fragments(received)[k], PacketSeparator)
  {
    SplitDropLast(received, PacketSeparator);
  }

  /**
   * Reading `received` as fragments, each ended by the first separator
   * after it, followed by text without a separator, can only give
   * `Fragments` and `Leftover`.
   */
  lemma {:induction false} FragmentsUnique(received: string, frags: seq<string>, rest: string)
    requires received == Terminated(frags, PacketSeparator) + rest
    requires forall k :: 0 <= k < |frags| ==> EndsAtFirst(frags[k], PacketSeparator)
    requires Free(rest, PacketSeparator)
    ensures Fragments(received) == frags && Leftover(received) == rest
  {
    var parts := frags + [rest];
    assert parts[..|parts| - 1] == frags;
    assert Split(received, PacketSeparator) == parts by {
      JoinAsTerminated(parts, PacketSeparator);
      assert CutsAtFirst(parts, PacketSeparator) by {
        forall k | 0 <= k < |parts| - 1 ensures EndsAtFirst(parts[k], PacketSeparator) {
          assert parts[k] == frags[k];
        }
      }
      SplitUnique(received, PacketSeparator, parts);
    }
  }

  /**
   * Once the address is registered, every fragment is routed to it
   * verbatim and in order, one `HEARTBEAT` is sent per fragment, and
   * nothing else changes.
   */
  lemma {:induction false} RegisteredFastPath(st: State, frags: seq<string>, address: string)
    requires WellFormed(st) && address in st.registered
    ensures ProcessFragments(st, frags, address) ==
      Outcome(st.(sent := st.sent + Heartbeats(|frags|), routed := st.routed + Routes(frags, address)), true)
    decreases |frags|
  {
    if frags != [] {
      var st1 := st.(sent := st.sent + [Heartbeat], routed := st.routed + [Route(frags[0], address)]);
      assert HandleFragment(st, frags[0], address) == Outcome(st1, true);
      ProcessFragmentsStep(st, frags, address);
      RegisteredFastPath(st1, frags[1..], address);
      AppendAssoc(st.sent, [Heartbeat], Heartbeats(|frags| - 1));
      AppendAssoc(st.routed, [Route(frags[0], address)], Routes(frags[1..], address));
    }
  }

  lemma RepliesCount()
    ensures Count([Heartbeat], Heartbeat) == 1 && Count([WhoAreYou, Heartbeat], Heartbeat) == 1
  {
    assert [Heartbeat][1..] == [];
    assert Count([Heartbeat], Heartbeat) == 1;
    assert [WhoAreYou, Heartbeat][1..] == [Heartbeat];
    assert WhoAreYou[0] != Heartbeat[0];
  }

  /** The replies to one fragment hold exactly one `HEARTBEAT`. */
  lemma HandleFragmentHeartbeat(st: State, fragment: string, address: string)
    requires WellFormed(st)
    ensures var o := HandleFragment(st, fragment, address);
      o.ok ==> Count(o.st.sent, Heartbeat) == Count(st.sent, Heartbeat) + 1
  {
    RepliesCount();
    CountAppend(st.sent, [Heartbeat], Heartbeat);
    CountAppend(st.sent, [WhoAreYou, Heartbeat], Heartbeat);
  }

  /** The loop goes on from the state the first fragment left. */
  lemma ProcessFragmentsStep(st: State, frags: seq<string>, address: string)
    requires WellFormed(st) && frags != [] && HandleFragment(st, frags[0], address).ok
    ensures ProcessFragments(st, frags, address)
         == ProcessFragments(HandleFragment(st, frags[0], address).st, frags[1..], address)
  {
  }

  /** `after` is `before` followed by nothing but `HEARTBEAT`s and `WHOAREYOU`s. */
  ghost predicate RepliesAppended(before: seq<string>, after: seq<string>) {
    && |before| <= |after| && after[..|before|] == before
    && forall i :: |before| <= i < |after| ==> after[i] == Heartbeat || after[i] == WhoAreYou
  }

  lemma RepliesAppendedTrans(a: seq<string>, b: seq<string>, c: seq<string>)
    requires RepliesAppended(a, b) && RepliesAppended(b, c)
    ensures RepliesAppended(a, c)
  {
    assert c[..|a|] == c[..|b|][..|a|];
    forall i | |a| <= i < |c| ensures c[i] == Heartbeat || c[i] == WhoAreYou {
      if i < |b| {
        assert c[i] == c[..|b|][i];
      }
    }
  }

  lemma HandleFragmentReplies(st: State, fragment: string, address: string)
    requires WellFormed(st)
    ensures RepliesAppended(st.sent, HandleFragment(st, fragment, address).st.sent)
  {
    var r := HandleFragment(st, fragment, address).st.sent;
    if r != st.sent {
      assert r[..|st.sent|] == st.sent;
    }
  }

  /**
   * `ProcessMessage` only appends to what was sent, and only `HEARTBEAT`
   * and `WHOAREYOU`.
   */
  lemma {:induction false} OnlyRepliesSent(st: State, frags: seq<string>, address: string)
    requires WellFormed(st)
    ensures RepliesAppended(st.sent, ProcessFragments(st, frags, address).st.sent)
    decreases |frags|
  {
    if frags == [] {
      assert st.sent[..|st.sent|] == st.sent;
    } else {
      var o := HandleFragment(st, frags[0], address);
      HandleFragmentReplies(st, frags[0], address);
      if o.ok {
        ProcessFragmentsStep(st, frags, address);
        OnlyRepliesSent(o.st, frags[1..], address);
        RepliesAppendedTrans(st.sent, o.st.sent, ProcessFragments(o.st, frags[1..], address).st.sent);
      }
    }
  }

  /**
   * `ProcessMessage` sends one `HEARTBEAT` for every fragment it finishes:
   * one per fragment of the read when no discovery step throws, and fewer
   * when one does.
   */
  lemma {:induction false} HeartbeatPerFragment(st: State, frags: seq<string>, address: string)
    requires WellFormed(st)
    ensures var r := ProcessFragments(st, frags, address);
      && (r.ok ==> Count(r.st.sent, Heartbeat) == Count(st.sent, Heartbeat) + |frags|)
      && (!r.ok ==> Count(r.st.sent, Heartbeat) < Count(st.sent, Heartbeat) + |frags|)
    decreases |frags|
  {
    if frags != [] {
      HandleFragmentHeartbeat(st, frags[0], address);
      var o := HandleFragment(st, frags[0], address);
      if o.ok {
        HeartbeatPerFragment(o.st, frags[1..], address);
      }
    }
  }

  lemma RoutesCons(frags: seq<string>, address: string)
    requires frags != []
    ensures Routes(frags, address) == [Route(frags[0], address)] + Routes(frags[1..], address)
  {
  }

  lemma RegisteredRoutes(st: State, frags: seq<string>, address: string)
    requires WellFormed(st) && address in st.registered
    ensures ProcessFragments(st, frags, address).st.routed == st.routed + Routes(frags, address)
  {
    RegisteredFastPath(st, frags, address);
  }

  /** One fragment keeps the registry consistent. */
  lemma HandleFragmentConsistent(st: State, fragment: string, address: string)
    requires Consistent(st)
    ensures Consistent(HandleFragment(st, fragment, address).st)
  {
    var o := if address in st.registered then Outcome(st, true) else AddDevice(st, fragment, address);
    if address !in st.registered {
      AddDeviceConsistent(st, fragment, address);
    }
    var r := HandleFragment(st, fragment, address);
    if o.ok {
      ConsistentIgnoresLogs(o.st, r.st.sent, r.st.routed);
      assert r.st == o.st.(sent := r.st.sent, routed := r.st.routed);
    }
  }

  /** `ProcessMessage` keeps the registry consistent, whether or not a step throws. */
  lemma {:induction false} ProcessFragmentsConsistent(st: State, frags: seq<string>, address: string)
    requires Consistent(st)
    ensures Consistent(ProcessFragments(st, frags, address).st)
    decreases |frags|
  {
    if frags != [] {
      HandleFragmentConsistent(st, frags[0], address);
      var o := HandleFragment(st, frags[0], address);
      if o.ok {
        ProcessFragmentsConsistent(o.st, frags[1..], address);
      }
    }
  }

  /** A frame of `Update` keeps the registry consistent. */
  lemma UpdateConsistent(st: State, streamOpen: bool, received: string, address: string)
    requires Consistent(st)
    ensures Consistent(Update(st, streamOpen, received, address).st)
  {
    if st.creating {
      DrainCreatesDevice(st);
    }
    ProcessFragmentsConsistent(Drain(st), Fragments(received), address);
  }
}
