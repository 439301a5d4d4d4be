/** main.go: the choice of the network interface the program uses. Enumerating the
    interfaces is not modelled: the list net.Interfaces returns is a parameter. */
module Interfaces {
  import opened Wrappers

  /** The bits of net.Flags, a Go uint. */
  const FlagUp: bv64 := 1
  const FlagBroadcast: bv64 := 2
  const FlagLoopback: bv64 := 4
  const FlagPointToPoint: bv64 := 8
  const FlagMulticast: bv64 := 16
  const FlagRunning: bv64 := 32

  /** A net.Interface; its MTU and hardware address play no part here. */
  datatype Interface = Interface(index: int, name: string, flags: bv64)

  /** Up, running and not a loopback interface. */
  predicate Suitable(i: Interface) {
    i.flags & FlagUp != 0 && i.flags & FlagRunning != 0 && i.flags & FlagLoopback == 0
  }

  /** The position of the first suitable interface, or the length when there is none. */
  function FirstSuitable(ifs: seq<Interface>): (k: nat)
    ensures k <= |ifs| && forall j :: 0 <= j < k ==> !Suitable(ifs[j])
    ensures k < |ifs| ==> Suitable(ifs[k])
  {
    if ifs == [] then 0
    else if Suitable(ifs[0]) then 0
    else
      var k := FirstSuitable(ifs[1..]);
      assert forall j :: 1 <= j < |ifs| ==> ifs[j] == ifs[1..][j - 1];
      1 + k
  }

  /** selectIfs (main.go:140-149): the first interface, in the order given, that is up,
      running and not a loopback interface; nil when there is none. */
  method SelectIfs(ifs: seq<Interface>) returns (r: Option<Interface>)
    ensures r.Some? ==>
      (r.value.flags & FlagUp != 0 && r.value.flags & FlagRunning != 0 && r.value.flags & FlagLoopback == 0)
    ensures r.Some? ==> exists k :: 0 <= k < |ifs| && ifs[k] == r.value && forall j :: 0 <= j < k ==> !Suitable(ifs[j])
    ensures r.None? <==> forall j :: 0 <= j < |ifs| ==> !Suitable(ifs[j])
    ensures r == if FirstSuitable(ifs) < |ifs| then Some(ifs[FirstSuitable(ifs)]) else None
  {
    for k := 0 to |ifs|
      invariant forall j :: 0 <= j < k ==> !Suitable(ifs[j])
    {
      if ifs[k].flags & FlagUp != 0 && ifs[k].flags & FlagRunning != 0 && ifs[k].flags & FlagLoopback == 0 {
        FirstSuitableAt(ifs, k);
        return Some(ifs[k]);
      }
    }
    FirstSuitableNone(ifs);
    return None;
  }

  /** A suitable interface with none before it is the first. */
  lemma FirstSuitableAt(ifs: seq<Interface>, k: nat)
    requires k < |ifs| && Suitable(ifs[k]) && forall j :: 0 <= j < k ==> !Suitable(ifs[j])
    ensures FirstSuitable(ifs) == k
  {
  }

  /** With no suitable interface the search runs to the end. */
  lemma FirstSuitableNone(ifs: seq<Interface>)
    requires forall j :: 0 <= j < |ifs| ==> !Suitable(ifs[j])
    ensures FirstSuitable(ifs) == |ifs|
  {
  }
}
