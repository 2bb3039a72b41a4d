/**
 * What `ProcessMessage` routes to the device behind the sending address.
 */
module RoutingProofs {
  import opened Registry
  import opened MessageProofs

  /** When the first fragment leaves the address registered, every fragment is routed. */
  lemma {:induction false} RoutedFromFirst(st: State, frags: seq<string>, address: string)
    requires WellFormed(st) && frags != []
    ensures var o := HandleFragment(st, frags[0], address);
      o.ok && address in o.st.registered ==>
        ProcessFragments(st, frags, address).st.routed == st.routed + Routes(frags, address)
  {
    var o := HandleFragment(st, frags[0], address);
    if o.ok && address in o.st.registered {
      ProcessFragmentsStep(st, frags, address);
      RegisteredRoutes(o.st, frags[1..], address);
      RoutesCons(frags, address);
      AppendAssoc(st.routed, [Route(frags[0], address)], Routes(frags[1..], address));
    }
  }

  /** Routing only registers addresses, never forgets them. */
  lemma {:induction false} RegisteredGrows(st: State, frags: seq<string>, address: string)
    requires WellFormed(st)
    ensures st.registered <= ProcessFragments(st, frags, address).st.registered
    decreases |frags|
  {
    if frags != [] && HandleFragment(st, frags[0], address).ok {
      ProcessFragmentsStep(st, frags, address);
      RegisteredGrows(HandleFragment(st, frags[0], address).st, frags[1..], address);
    }
  }

  /**
   * The state once the `ProcessMessage` loop has handled the first `n`
   * fragments of `frags`, or has thrown on one of them.
   */
  ghost function AfterFirst(st: State, frags: seq<string>, address: string, n: nat): (r: State)
    requires WellFormed(st) && n <= |frags|
    ensures WellFormed(r)
    decreases n
  {
    if n == 0 then st
    else
      var o := HandleFragment(st, frags[0], address);
      if !o.ok then o.st else AfterFirst(o.st, frags[1..], address, n - 1)
  }

  /** Handling all the fragments is `ProcessFragments`. */
  lemma {:induction false} AfterFirstAll(st: State, frags: seq<string>, address: string)
    requires WellFormed(st)
    ensures AfterFirst(st, frags, address, |frags|) == ProcessFragments(st, frags, address).st
    decreases |frags|
  {
    if frags != [] && HandleFragment(st, frags[0], address).ok {
      AfterFirstAll(HandleFragment(st, frags[0], address).st, frags[1..], address);
    }
  }

  /**
   * Routing during the read `frags` starts at fragment `k`: the messages
   * routed are the fragments from `k` on, in order; `k` is the first
   * fragment after whose handling the address is registered (the end of the
   * read when there is none); and it is 0 when the address was registered
   * before the read.
   */
  ghost predicate RoutedFrom(st: State, frags: seq<string>, address: string, k: nat)
    requires WellFormed(st)
  {
    && k <= |frags|
    && ProcessFragments(st, frags, address).st.routed == st.routed + Routes(frags[k..], address)
    && (address in st.registered ==> k == 0)
    && (0 < k ==> address !in AfterFirst(st, frags, address, k).registered)
    && (k < |frags| ==> address in AfterFirst(st, frags, address, k + 1).registered)
  }

  /**
   * A first fragment that leaves the address unregistered is not routed,
   * and routing then starts one fragment later than it does for the rest
   * of the read.
   */
  lemma {:induction false} RoutedFromShift(st: State, frags: seq<string>, address: string, k: nat)
    requires WellFormed(st) && frags != []
    ensures var o := HandleFragment(st, frags[0], address);
      o.ok && address !in o.st.registered && RoutedFrom(o.st, frags[1..], address, k) ==>
        RoutedFrom(st, frags, address, k + 1)
  {
    var o := HandleFragment(st, frags[0], address);
    if o.ok && address !in o.st.registered && RoutedFrom(o.st, frags[1..], address, k) {
      ProcessFragmentsStep(st, frags, address);
      assert frags[1..][k..] == frags[k + 1..];
    }
  }

  /**
   * The messages `ProcessMessage` routes are a suffix of the read's
   * fragments, verbatim and in order, all to the sender: they start at the
   * first fragment after whose handling the sender is registered (a
   * `DEVICE_INFO` fragment is routed to the device it made known), at the
   * first fragment when the sender was registered before, and they are
   * empty when the sender stays unregistered.
   */
  lemma {:induction false} RoutedSuffix(st: State, frags: seq<string>, address: string)
    requires WellFormed(st)
    ensures ProcessFragments(st, frags, address).ok ==> exists k: nat :: RoutedFrom(st, frags, address, k)
    decreases |frags|
  {
    var r := ProcessFragments(st, frags, address);
    if frags == [] {
      assert st.routed + Routes(frags[0..], address) == st.routed;
      assert RoutedFrom(st, frags, address, 0);
    } else if r.ok {
      var o := HandleFragment(st, frags[0], address);
      ProcessFragmentsStep(st, frags, address);
      if address in o.st.registered {
        RoutedFromFirst(st, frags, address);
        assert frags[0..] == frags;
        assert RoutedFrom(st, frags, address, 0);
      } else {
        RoutedSuffix(o.st, frags[1..], address);
        var k: nat :| RoutedFrom(o.st, frags[1..], address, k);
        RoutedFromShift(st, frags, address, k);
      }
    }
  }
}
