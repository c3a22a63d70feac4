/**
 The walk over all USB buses, devices, configurations, interfaces and alternate settings that the
 CCID driver uses both to list readers and to open one.
 */
module CcidScan {
  import opened Common
  import opened ReaderId

  /** An alternate setting; `extra` is the CCID class descriptor, if any. */
  datatype Alt = Alt(cls: nat, sub: nat, proto: nat, extra: Option<Text>, number: nat)

  /** A device as libusb presents it; `address` tells it from every other device, `opens` says whether
      it can be opened, `serial` what its serial number descriptor reads as. */
  datatype Device = Device(
    address: nat, vendor: Word, product: Word, opens: bool, serial: Option<Text>, configs: seq<seq<seq<Alt>>>)

  /** What find mode hands back. */
  datatype Found = Found(dev: Device, alt: Alt, rid: Text)

  /** A CCID interface, or the one product that is known not to say so. */
  predicate IsCcid(dev: Device, alt: Alt) {
    && alt.extra.Some?
    && (|| (alt.cls == 11 && alt.sub == 0 && alt.proto == 0)
        || (alt.cls == 255 && dev.vendor == 0x04e6 && dev.product == 0xe003))
  }

  // ----- reference: the flat list of readers -----

  function Alts(dev: Device): seq<Alt> { Flatten(Flatten(dev.configs)) }

  /** The first CCID setting, in the order of configuration, interface, setting. */
  function FirstCcid(dev: Device, alts: seq<Alt>): Option<Alt> {
    if alts == [] then None
    else if IsCcid(dev, alts[0]) then Some(alts[0])
    else FirstCcid(dev, alts[1..])
  }

  /** At most one reader per device. */
  function ReaderOf(dev: Device): seq<Found>
  {
    var alt := FirstCcid(dev, Alts(dev));
    if dev.opens && alt.Some? then [Found(dev, alt.value, IdText(dev.vendor, dev.product, dev.serial))] else []
  }

  function Readers(devs: seq<Device>): seq<Found>
  {
    if devs == [] then [] else Readers(devs[..|devs| - 1]) + ReaderOf(devs[|devs| - 1])
  }

  function Ids(fs: seq<Found>): seq<Text> { seq(|fs|, i requires 0 <= i < |fs| => fs[i].rid) }

  // ----- lemmas about the reference -----

  lemma FlattenPrefix<T>(xss: seq<seq<T>>, i: nat)
    requires i < |xss|
    ensures Flatten(xss[..i + 1]) == Flatten(xss[..i]) + xss[i]
  {
    assert xss[..i + 1] == xss[..i] + [xss[i]];
    FlattenSnoc(xss[..i], xss[i]);
  }

  lemma FlattenSplit<T>(xss: seq<seq<T>>, i: nat)
    requires i < |xss|
    ensures Flatten(xss) == Flatten(xss[..i]) + xss[i] + Flatten(xss[i + 1..])
  {
    hide Flatten;
    FlattenPrefix(xss, i);
    assert Flatten(xss) == Flatten(xss[..i + 1]) + Flatten(xss[i + 1..]) by {
      FlattenAppend(xss[..i + 1], xss[i + 1..]);
      assert xss[..i + 1] + xss[i + 1..] == xss;
    }
  }

  lemma {:induction false} FirstCcidAppend(dev: Device, a: seq<Alt>, b: seq<Alt>)
    ensures FirstCcid(dev, a + b) == if FirstCcid(dev, a).Some? then FirstCcid(dev, a) else FirstCcid(dev, b)
    decreases |a|
  {
    if a == [] {
      assert a + b == b;
    } else {
      FirstCcidAppend(dev, a[1..], b);
      assert (a + b)[1..] == a[1..] + b;
    }
  }

  /** The walk within one interface; a device that cannot be opened is skipped setting by setting. */
  method FindInInterface(dev: Device, alts: seq<Alt>) returns (r: Option<Alt>)
    ensures r == if dev.opens then FirstCcid(dev, alts) else None
  {
    for i := 0 to |alts|
      invariant dev.opens ==> FirstCcid(dev, alts[..i]) == None
    {
      FirstCcidAppend(dev, alts[..i], [alts[i]]);
      assert alts[..i + 1] == alts[..i] + [alts[i]];
      if IsCcid(dev, alts[i]) && dev.opens {
        FirstCcidAppend(dev, alts[..i + 1], alts[i + 1..]);
        assert alts == alts[..i + 1] + alts[i + 1..];
        return Some(alts[i]);
      }
    }
    assert alts[..|alts|] == alts;
    r := None;
  }

  method FindInConfig(dev: Device, ifcs: seq<seq<Alt>>) returns (r: Option<Alt>)
    ensures r == if dev.opens then FirstCcid(dev, Flatten(ifcs)) else None
  {
    for i := 0 to |ifcs|
      invariant dev.opens ==> FirstCcid(dev, Flatten(ifcs[..i])) == None
    {
      r := FindInInterface(dev, ifcs[i]);
      FlattenPrefix(ifcs, i);
      FirstCcidAppend(dev, Flatten(ifcs[..i]), ifcs[i]);
      if r.Some? {
        FlattenSplit(ifcs, i);
        FirstCcidAppend(dev, Flatten(ifcs[..i]) + ifcs[i], Flatten(ifcs[i + 1..]));
        return;
      }
    }
    assert ifcs[..|ifcs|] == ifcs;
    r := None;
  }

  method FindInDevice(dev: Device) returns (r: Option<Alt>)
    ensures r == if dev.opens then FirstCcid(dev, Alts(dev)) else None
  {
    var cfgs := dev.configs;
    for i := 0 to |cfgs|
      invariant dev.opens ==> FirstCcid(dev, Flatten(Flatten(cfgs[..i]))) == None
    {
      r := FindInConfig(dev, cfgs[i]);
      FlattenPrefix(cfgs, i);
      FlattenAppend(Flatten(cfgs[..i]), cfgs[i]);
      FirstCcidAppend(dev, Flatten(Flatten(cfgs[..i])), Flatten(cfgs[i]));
      if r.Some? {
        FlattenSplit(cfgs, i);
        FlattenAppend(Flatten(cfgs[..i]) + cfgs[i], Flatten(cfgs[i + 1..]));
        FirstCcidAppend(dev, Flatten(Flatten(cfgs[..i]) + cfgs[i]), Flatten(Flatten(cfgs[i + 1..])));
        return;
      }
    }
    assert cfgs[..|cfgs|] == cfgs;
    r := None;
  }

  /** `f` is the first reader in `all` with the given ID. */
  ghost predicate FirstWithId(all: seq<Found>, id: Text, f: Found) {
    exists k :: 0 <= k < |all| && all[k] == f && f.rid == id && forall j :: 0 <= j < k ==> all[j].rid != id
  }

  /** The answer find mode has to give on a list of readers. */
  ghost predicate Answer(all: seq<Found>, readerno: int, readerid: Option<Text>, found: Option<Found>) {
    if readerno >= 0 then found == (if readerno < |all| then Some(all[readerno]) else None)
    else if readerid.None? then found == None
    else if found.Some? then FirstWithId(all, readerid.value, found.value)
    else forall f <- all :: f.rid != readerid.value
  }

  lemma ReadersSnoc(devs: seq<Device>, dev: Device)
    ensures Readers(devs + [dev]) == Readers(devs) + ReaderOf(dev)
  {
    assert (devs + [dev])[..|devs|] == devs;
  }

  lemma {:induction false} ReadersPrefix(devs: seq<Device>, more: seq<Device>)
    ensures Readers(devs) <= Readers(devs + more)
    decreases |more|
  {
    hide ReaderOf;
    if more == [] {
      assert devs + more == devs;
    } else {
      var n := |more| - 1;
      ReadersPrefix(devs, more[..n]);
      assert devs + more == (devs + more[..n]) + [more[n]];
      ReadersSnoc(devs + more[..n], more[n]);
    }
  }

  /** What the driver does with one usable device: list it, or take it if it is the one wanted. */
  method Visit(dev: Device, alt: Alt, scan: bool, readerno: int, readerid: Option<Text>, list: Text, ghost before: seq<Found>)
    returns (found: Option<Found>, readerno': int, list': Text)
    requires scan ==> list == Lines(Ids(before))
    ensures var f := Found(dev, alt, IdText(dev.vendor, dev.product, dev.serial));
            if scan then found == None && readerno' == readerno && list' == Lines(Ids(before + [f]))
            else
              && list' == list
              && (found == Some(f) <==> readerno == 0 || (readerno < 0 && readerid == Some(f.rid)))
              && (found != Some(f) ==> found == None)
              && readerno' == (if found.None? && readerno >= 0 then readerno - 1 else readerno)
  {
    found, readerno', list' := None, readerno, list;
    var rid := MakeReaderId(dev.vendor, dev.product, dev.serial);
    if scan {
      list' := list + rid + [NEWLINE];
      ghost var f := Found(dev, alt, rid);
      ghost var ids := Ids(before + [f]);
      assert ids[..|ids| - 1] == Ids(before);
    } else if readerno == 0 || (readerno < 0 && readerid.Some? && readerid.value == rid) {
      found := Some(Found(dev, alt, rid));
    } else if readerno >= 0 {
      readerno' := readerno - 1;
    }
  }

  /** The walk has passed the readers in `seen` without finding the one wanted. */
  ghost predicate Passed(seen: seq<Found>, scan: bool, wanted: int, readerid: Option<Text>, readerno: int, list: Text) {
    if scan then readerno == wanted && list == Lines(Ids(seen))
    else
      && list == []
      && (if wanted >= 0 then readerno == wanted - |seen| && readerno >= 0
          else readerno == wanted && (readerid.Some? ==> forall f <- seen :: f.rid != readerid.value))
  }

  lemma TakenIsAnswer(seen: seq<Found>, f: Found, all: seq<Found>, wanted: int, readerid: Option<Text>, readerno: int)
    requires seen + [f] <= all && Passed(seen, false, wanted, readerid, readerno, [])
    requires readerno == 0 || (readerno < 0 && readerid == Some(f.rid))
    ensures Answer(all, wanted, readerid, Some(f))
  {
    assert all[|seen|] == f && forall j :: 0 <= j < |seen| ==> all[j] == seen[j];
  }

  /** One device of the walk. */
  method VisitDevice(dev: Device, scan: bool, wanted: int, readerid: Option<Text>, readerno: int, list: Text, ghost seen: seq<Found>)
    returns (found: Option<Found>, readerno': int, list': Text)
    requires Passed(seen, scan, wanted, readerid, readerno, list)
    ensures found.None? ==> Passed(seen + ReaderOf(dev), scan, wanted, readerid, readerno', list')
    ensures found.Some? ==> !scan && list' == [] && ReaderOf(dev) == [found.value]
                            && forall all :: seen + [found.value] <= all ==> Answer(all, wanted, readerid, found)
  {
    found, readerno', list' := None, readerno, list;
    var alt := FindInDevice(dev);
    if alt.Some? {
      found, readerno', list' := Visit(dev, alt.value, scan, readerno, readerid, list, seen);
      if found.Some? {
        forall all | seen + [found.value] <= all
          ensures Answer(all, wanted, readerid, found)
        {
          TakenIsAnswer(seen, found.value, all, wanted, readerid, readerno);
        }
      }
    } else {
      assert seen + ReaderOf(dev) == seen;
    }
  }

  /** The walk over one bus. */
  method WalkBus(bus: seq<Device>, scan: bool, wanted: int, readerid: Option<Text>, readerno: int, list: Text,
                 ghost before: seq<Device>, ghost after: seq<Device>)
    returns (found: Option<Found>, readerno': int, list': Text)
    requires Passed(Readers(before), scan, wanted, readerid, readerno, list)
    ensures found.None? ==> Passed(Readers(before + bus), scan, wanted, readerid, readerno', list')
    ensures found.Some? ==> !scan && list' == [] && Answer(Readers(before + bus + after), wanted, readerid, found)
  {
    hide Passed;
    hide Answer;
    hide ReaderOf;
    found, readerno', list' := None, readerno, list;
    assert before + bus[..0] == before;
    for i := 0 to |bus|
      invariant found.None? && Passed(Readers(before + bus[..i]), scan, wanted, readerid, readerno', list')
    {
      ghost var devs := before + bus[..i];
      assert before + bus[..i + 1] == devs + [bus[i]];
      ReadersSnoc(devs, bus[i]);
      found, readerno', list' := VisitDevice(bus[i], scan, wanted, readerid, readerno', list', Readers(devs));
      if found.Some? {
        ghost var rest := bus[i + 1..] + after;
        assert before + bus + after == (devs + [bus[i]]) + rest;
        ReadersPrefix(devs + [bus[i]], rest);
        return;
      }
    }
    assert bus[..|bus|] == bus;
  }

  /** Scan mode (number -1 and no ID) lists the IDs of all readers; find mode opens the reader with
      the given number in that list, or the first one with the given ID. */
  method ScanOrFind(buses: seq<seq<Device>>, readerno: int, readerid: Option<Text>) returns (found: Option<Found>, list: Text)
    ensures var all := Readers(Flatten(buses));
            if readerno == -1 && readerid.None? then found == None && list == Lines(Ids(all))
            else list == [] && Answer(all, readerno, readerid, found)
  {
    var scan := readerno == -1 && readerid.None?;
    var no := readerno;
    found, list := None, [];
    for i := 0 to |buses|
      invariant found.None?
      invariant Passed(Readers(Flatten(buses[..i])), scan, readerno, readerid, no, list)
    {
      FlattenPrefix(buses, i);
      FlattenSplit(buses, i);
      found, no, list := WalkBus(buses[i], scan, readerno, readerid, no, list, Flatten(buses[..i]), Flatten(buses[i + 1..]));
      if found.Some? {
        return;
      }
    }
    assert buses[..|buses|] == buses;
    if !scan {
      assert Answer(Readers(Flatten(buses)), readerno, readerid, None);
    }
  }

  /** The printed list splits back into exactly the readers' IDs, in order, so the number of a line
      is the number find mode expects. */
  lemma ListSplits(buses: seq<seq<Device>>)
    ensures var ids := Ids(Readers(Flatten(buses))); SplitLines(Lines(ids), []) == ids
  {
    var devs := Flatten(buses);
    var ids := Ids(Readers(devs));
    ReadersHaveIds(devs);
    SplitLinesAll(ids, []);
    assert Lines(ids) + [] == Lines(ids) && ids + [] == ids;
  }

  /** Listing and then opening by number: the number counts lines of the list, opening succeeds
      exactly for the numbers of its lines, and opens a device whose ID is that line. */
  method ScanThenFind(buses: seq<seq<Device>>, number: nat) returns (list: Text, found: Option<Found>)
    ensures var lines := SplitLines(list, []);
            var all := Readers(Flatten(buses));
            && |lines| == |all|
            && (found.Some? <==> number < |lines|)
            && (found.Some? ==> found.value == all[number] && found.value.rid == lines[number])
  {
    var none, empty;
    none, list := ScanOrFind(buses, -1, None);
    found, empty := ScanOrFind(buses, number, None);
    ListSplits(buses);
  }

  lemma {:induction false} ReadersHaveIds(devs: seq<Device>)
    ensures forall f <- Readers(devs) :: f.dev in devs && f.dev.opens && IsCcid(f.dev, f.alt) && NEWLINE !in f.rid
    decreases |devs|
  {
    if devs != [] {
      var n := |devs| - 1;
      ReadersHaveIds(devs[..n]);
      IdHasNoNewline(devs[n].vendor, devs[n].product, devs[n].serial);
      FirstIsCcid(devs[n], Alts(devs[n]));
    }
  }

  /** What makes a device a reader: it opens, and some setting has a class descriptor and either class
      11, subclass 0, protocol 0, or class 255 on product 0xe003 of vendor 0x04e6. */
  ghost predicate IsReader(dev: Device) {
    dev.opens && exists alt <- Alts(dev) ::
      && alt.extra.Some?
      && (|| (alt.cls == 11 && alt.sub == 0 && alt.proto == 0)
          || (alt.cls == 255 && dev.vendor == 0x04e6 && dev.product == 0xe003))
  }

  ghost predicate Listed(fs: seq<Found>, dev: Device) { exists f <- fs :: f.dev == dev }

  lemma ReaderOfIff(dev: Device)
    ensures var fs := ReaderOf(dev);
            fs == [] || (|fs| == 1 && fs[0].dev == dev && fs[0].rid == IdText(dev.vendor, dev.product, dev.serial))
    ensures ReaderOf(dev) != [] <==> IsReader(dev)
  {
    FirstIsCcid(dev, Alts(dev));
    hide Alts;
  }

  lemma ListedAppend(fs: seq<Found>, gs: seq<Found>, dev: Device)
    ensures Listed(fs + gs, dev) <==> Listed(fs, dev) || Listed(gs, dev)
  {
  }

  /** The devices listed are exactly the readers among those present. */
  lemma {:induction false} ListedIff(devs: seq<Device>, dev: Device)
    ensures Listed(Readers(devs), dev) <==> dev in devs && IsReader(dev)
    decreases |devs|
  {
    if devs != [] {
      var n := |devs| - 1;
      var last := ReaderOf(devs[n]);
      ListedIff(devs[..n], dev);
      ReaderOfIff(devs[n]);
      assert last != [] ==> last == [last[0]];
      assert Listed(last, dev) <==> devs[n] == dev && last != [];
      ListedAppend(Readers(devs[..n]), last, dev);
      hide ReaderOf;
      hide IsReader;
      hide Listed;
      assert dev in devs <==> dev in devs[..n] || dev == devs[n];
    }
  }

  lemma {:induction false} FirstIsCcid(dev: Device, alts: seq<Alt>)
    ensures var r := FirstCcid(dev, alts);
            if r.Some? then r.value in alts && IsCcid(dev, r.value) else forall a <- alts :: !IsCcid(dev, a)
    decreases |alts|
  {
    if alts != [] {
      FirstIsCcid(dev, alts[1..]);
    }
  }
}
