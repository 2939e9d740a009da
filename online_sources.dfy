/** `Camera::list_online_sources`: the serials of the devices discovery
    reports, grouped by how they are connected. */
module OnlineSources {

  /** `OnlineSourceType`. */
  datatype SourceType = Embedded | Usb | Remote

  /** `ConnectionType` of a discovered system. */
  datatype Connection = MipiLink | UsbLink | NetworkLink | ProxyLink

  /** A discovered system: its connection and its full serial. */
  datatype System = System(connection: Connection, serial: string)

  /** The serials of `systems`, in discovery order. */
  function Serials(systems: seq<System>): (r: seq<string>)
    ensures |r| == |systems|
    ensures forall i :: 0 <= i < |systems| ==> r[i] == systems[i].serial
  {
    if systems == [] then []
    else Serials(systems[..|systems| - 1]) + [systems[|systems| - 1].serial]
  }

  /** The serials of the systems on link `c`, in discovery order. */
  function SerialsOn(systems: seq<System>, c: Connection): (r: seq<string>)
    ensures |r| <= |systems|
    ensures forall x :: x in r ==> exists i :: 0 <= i < |systems| && systems[i].connection == c && systems[i].serial == x
    ensures (exists i :: 0 <= i < |systems| && systems[i].connection == c) ==> r != []
  {
    if systems == [] then []
    else
      var last := systems[|systems| - 1];
      var init := systems[..|systems| - 1];
      var r := SerialsOn(init, c) + if last.connection == c then [last.serial] else [];
      assert forall i :: 0 <= i < |init| ==> init[i] == systems[i];
      r
  }

  /** The serials listed for one source type keep the order of discovery: the
      sort at the end of `list_online_sources` sorts copies of the lists and
      leaves the map as it was built. A system discovered before another on
      the same link is listed before it. */
  lemma {:induction false} SerialsOnKeepsOrder(systems: seq<System>, c: Connection, i: nat, j: nat) returns (a: nat, b: nat)
    requires i < j < |systems|
    requires systems[i].connection == c && systems[j].connection == c
    ensures var r := SerialsOn(systems, c);
      a < b < |r| && r[a] == systems[i].serial && r[b] == systems[j].serial
    decreases |systems|
  {
    var init := systems[..|systems| - 1];
    var last := systems[|systems| - 1];
    var r0 := SerialsOn(init, c);
    assert init[i] == systems[i];
    assert SerialsOn(systems, c) == r0 + if last.connection == c then [last.serial] else [];
    if j < |systems| - 1 {
      assert init[j] == systems[j];
      a, b := SerialsOnKeepsOrder(init, c, i, j);
    } else {
      a := SerialsOnIndex(init, c, i);
      b := |r0|;
    }
  }

  /** Where the serial of a system on link `c` is listed. */
  lemma {:induction false} SerialsOnIndex(systems: seq<System>, c: Connection, i: nat) returns (a: nat)
    requires i < |systems| && systems[i].connection == c
    ensures var r := SerialsOn(systems, c);
      a < |r| && r[a] == systems[i].serial
    decreases |systems|
  {
    var init := systems[..|systems| - 1];
    var last := systems[|systems| - 1];
    assert SerialsOn(systems, c) == SerialsOn(init, c) + if last.connection == c then [last.serial] else [];
    if i < |systems| - 1 {
      assert init[i] == systems[i];
      a := SerialsOnIndex(init, c, i);
    } else {
      a := |SerialsOn(init, c)|;
    }
  }

  /** The positions of the systems discovered on link `c`. */
  ghost function OnLink(systems: seq<System>, c: Connection): set<nat> {
    set i | 0 <= i < |systems| && systems[i].connection == c
  }

  /** The positions on a link of a non-empty discovery list are those of all
      but its last system, plus the last one when it is on the link. */
  lemma OnLinkLast(systems: seq<System>, c: Connection)
    requires systems != []
    ensures OnLink(systems, c)
      == OnLink(systems[..|systems| - 1], c) + if systems[|systems| - 1].connection == c then {|systems| - 1} else {}
    ensures |systems| - 1 !in OnLink(systems[..|systems| - 1], c)
  {
    var n := |systems| - 1;
    var init := systems[..n];
    forall i: nat ensures i in OnLink(systems, c) <==> i in OnLink(init, c) + if systems[n].connection == c then {n} else {} {
      if i < n {
        assert init[i] == systems[i];
      }
    }
  }

  /** One serial is listed per system discovered on the link: with
      `SerialsOnKeepsOrder`, the list holds each such system's serial once,
      in discovery order, and nothing else. */
  lemma {:induction false} SerialsOnCount(systems: seq<System>, c: Connection)
    ensures |SerialsOn(systems, c)| == |OnLink(systems, c)|
    decreases |systems|
  {
    if systems != [] {
      var n := |systems| - 1;
      var init := systems[..n];
      SerialsOnCount(init, c);
      OnLinkLast(systems, c);
      assert SerialsOn(systems, c) == SerialsOn(init, c) + if systems[n].connection == c then [systems[n].serial] else [];
    }
  }

  /** `list_online_sources`: remote systems first, all of them, then the
      local ones on a MIPI or USB link; a type appears in the map only when
      some system of that type was found. */
  method ListOnlineSources(local: seq<System>, remote: seq<System>) returns (ret: map<SourceType, seq<string>>)
    ensures Remote in ret <==> remote != []
    ensures Remote in ret ==> ret[Remote] == Serials(remote)
    ensures Embedded in ret <==> SerialsOn(local, MipiLink) != []
    ensures Embedded in ret ==> ret[Embedded] == SerialsOn(local, MipiLink)
    ensures Usb in ret <==> SerialsOn(local, UsbLink) != []
    ensures Usb in ret ==> ret[Usb] == SerialsOn(local, UsbLink)
  {
    ret := map[];
    var i := 0;
    while i < |remote|
      invariant 0 <= i <= |remote|
      invariant Remote in ret <==> i > 0
      invariant Remote in ret ==> ret[Remote] == Serials(remote[..i])
      invariant Embedded !in ret && Usb !in ret
    {
      if Remote !in ret {
        ret := ret[Remote := []];
      }
      assert remote[..i + 1][..i] == remote[..i];
      ret := ret[Remote := ret[Remote] + [remote[i].serial]];
      i := i + 1;
    }
    assert remote[..i] == remote;
    var j := 0;
    while j < |local|
      invariant 0 <= j <= |local|
      invariant Remote in ret <==> remote != []
      invariant Remote in ret ==> ret[Remote] == Serials(remote)
      invariant Embedded in ret <==> SerialsOn(local[..j], MipiLink) != []
      invariant Embedded in ret ==> ret[Embedded] == SerialsOn(local[..j], MipiLink)
      invariant Usb in ret <==> SerialsOn(local[..j], UsbLink) != []
      invariant Usb in ret ==> ret[Usb] == SerialsOn(local[..j], UsbLink)
    {
      var system := local[j];
      assert local[..j + 1][..j] == local[..j];
      assert local[..j + 1][j] == system;
      match system.connection {
        case MipiLink =>
          if Embedded !in ret {
            ret := ret[Embedded := []];
          }
          ret := ret[Embedded := ret[Embedded] + [system.serial]];
        case UsbLink =>
          if Usb !in ret {
            ret := ret[Usb := []];
          }
          ret := ret[Usb := ret[Usb] + [system.serial]];
        case _ =>
      }
      j := j + 1;
    }
    assert local[..j] == local;
  }
}
