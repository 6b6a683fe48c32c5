/** Disk identifiers: what the lister prints for a volume leads the mounter back to it. */
module LvmPaths {
  import opened Wrappers
  import opened LvmNames
  import opened Sequences

  /** The path inside the VM and the device tokens to resolve. */
  datatype Claim = Claim(vmPath: string, tokens: seq<string>)

  const MAPPER: string := "/dev/mapper/"

  /** The mounter's reading of an `lvm:` path. */
  method ClaimLvm(diskPath: string) returns (r: Result<Claim, NameError>)
    requires "lvm:" <= diskPath
    ensures var ident := Split(diskPath, ':');
            r == if |ident| < 4 then Failure(InvalidDiskPath)
                 else Success(Claim("/dev/mapper/" + Print(ident[1], ident[|ident| - 1]), ident[2..|ident| - 1]))
  {
    var ident := Split(diskPath, ':');
    if |ident| < 4 {
      return Failure(InvalidDiskPath);
    }
    var vmPath := MAPPER + Escape(ident[1]) + "-" + Escape(ident[|ident| - 1]);
    PathIsPrinted(ident[1], ident[|ident| - 1]);
    var tokens := [];
    var skipped := ident[2..];
    for i := 0 to |skipped|
      invariant tokens == skipped[..i] && i <= |ident| - 3
    {
      if i == |ident| - 3 {
        assert skipped[..i] == ident[2..|ident| - 1];
        break;
      }
      tokens := tokens + [skipped[i]];
    }
    return Success(Claim(vmPath, tokens));
  }

  lemma PathIsPrinted(vg: string, lv: string)
    ensures MAPPER + Escape(vg) + "-" + Escape(lv) == MAPPER + Print(vg, lv)
  {
    hide MAPPER, Escape;
    Associative(MAPPER, Escape(vg), "-");
    Associative(MAPPER, Escape(vg) + "-", Escape(lv));
  }

  /** The identifier listed for a volume: group, devices, volume. */
  function Listed(ident: LvIdent, devices: seq<string>): string
    requires devices != []
  {
    ident.vgName + ":" + Join(devices, ':') + ":" + ident.lvName
  }

  lemma SplitListed(ident: LvIdent, devices: seq<string>)
    requires devices != [] && Without(devices, ':') && ':' !in ident.vgName && ':' !in ident.lvName
    ensures Split("lvm:" + Listed(ident, devices), ':') == ["lvm", ident.vgName] + devices + [ident.lvName]
  {
    var parts := ["lvm", ident.vgName] + devices + [ident.lvName];
    JoinSnoc(devices, ident.lvName, ':');
    assert parts[2..] == devices + [ident.lvName];
    assert parts[1..][1..] == parts[2..] && parts[1] == ident.vgName;
    Associative(ident.vgName + ":", Join(devices, ':') + ":", ident.lvName);
    Associative(ident.vgName + ":", Join(devices, ':'), ":");
    assert Join(parts[1..], ':') == Listed(ident, devices);
    assert "lvm" + [':'] == "lvm:";
    assert Join(parts, ':') == "lvm:" + Join(parts[1..], ':');
    SplitOfJoin(parts, ':');
  }

  /**
    For every name that device-mapper can print and the lister can parse, the
    listed identifier leads the mounter to that same name and to the same
    devices, as long as no part contains a colon.
   */
  lemma ListedLeadsBack(vg: string, lv: string, devices: seq<string>)
    requires Parse(Print(vg, lv)).Success?
    requires devices != [] && Without(devices, ':') && ':' !in vg && ':' !in lv
    ensures var ident := Parse(Print(vg, lv)).value;
            var parts := Split("lvm:" + Listed(ident, devices), ':');
      && "lvm:" <= "lvm:" + Listed(ident, devices) && |parts| >= 4
      && "/dev/mapper/" + Print(parts[1], parts[|parts| - 1]) == "/dev/mapper/" + Print(vg, lv)
      && parts[2..|parts| - 1] == devices
  {
    hide Print, Parse;
    ParseOfPrinted(vg, lv);
    PrintMovesDashes(vg, lv);
    var ident := Parse(Print(vg, lv)).value;
    assert forall i :: 0 <= i < |Repeat(Dashes(lv))| ==> Repeat(Dashes(lv))[i] == '-';
    SplitListed(ident, devices);
  }
}
