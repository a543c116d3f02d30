/**
 The sender registers its public address, its local address and its local port in one text
 field; the receiver takes them apart again.
 */
module Address {
  import opened Common
  import opened Decimal

  const DEFAULT_PORT: nat := 5173
  const UINT32: nat := 0x1_0000_0000

  datatype Addresses = Addresses(ip: string, localIp: string, localPort: nat)

  /** The separate fields for the local address, which a server may or may not return. */
  datatype Extra = Extra(localIp: Option<string>, localPort: Option<nat>)

  const NO_EXTRA := Extra(None, None)

  function Pack(a: Addresses): string {
    a.ip + if a.localIp == "" then "" else ";" + a.localIp + ":" + ToDecimal(a.localPort)
  }

  /** The first position of `c`, or the length of `s`. */
  function IndexOf(s: string, c: char): (i: nat)
    ensures i <= |s| && (i < |s| ==> s[i] == c) && forall k :: 0 <= k < i ==> s[k] != c
  {
    if s == "" || s[0] == c then 0 else 1 + IndexOf(s[1..], c)
  }

  /** `None` where reading the port throws. */
  function Unpack(raw: string, extra: Extra): Option<Addresses> {
    var semi := IndexOf(raw, ';');
    if semi == |raw| then
      Some(WithExtra(Addresses(raw, "", 0), extra))
    else
      var local := raw[semi + 1..];
      var colon := IndexOf(local, ':');
      if colon == |local| then
        Some(WithExtra(Addresses(raw[..semi], local, DEFAULT_PORT), extra))
      else
        match Stoi(local[colon + 1..])
        case None => None
        case Some(port) =>
          Some(WithExtra(Addresses(raw[..semi], local[..colon], ToUint32(port)), extra))
  }

  function ToUint32(n: int): nat {
    n % UINT32
  }

  /** Without a local address in the packed field the separate fields are used. */
  function WithExtra(a: Addresses, extra: Extra): Addresses {
    if a.localIp != "" then a
    else Addresses(a.ip,
                   if extra.localIp.Some? then extra.localIp.value else "",
                   if extra.localPort.Some? then extra.localPort.value else 0)
  }

  lemma IndexOfSeparator(before: string, c: char, after: string)
    requires c !in before
    ensures var s := before + [c] + after;
            IndexOf(s, c) == |before| < |s| && s[..|before|] == before && s[|before| + 1..] == after
  {
    var s := before + [c] + after;
    assert s[|before|] == c;
    assert forall k :: 0 <= k < |before| ==> s[k] == before[k];
  }

  lemma IndexOfEarlier(before: string, c: char, after: string)
    requires c in before
    ensures IndexOf(before + after, c) < |before|
  {
    var i :| 0 <= i < |before| && before[i] == c;
    assert (before + after)[i] == c;
  }

  /** The packed field falls apart where it was joined. */
  lemma PackedParts(a: Addresses)
    requires a.localIp != "" && ';' !in a.ip && ':' !in a.localIp
    ensures var raw := Pack(a);
            && IndexOf(raw, ';') == |a.ip| < |raw| && raw[..|a.ip|] == a.ip
            && var local := raw[|a.ip| + 1..];
               && IndexOf(local, ':') == |a.localIp| < |local| && local[..|a.localIp|] == a.localIp
               && local[|a.localIp| + 1..] == ToDecimal(a.localPort)
  {
    var port := ToDecimal(a.localPort);
    var local := a.localIp + ":" + port;
    assert Pack(a) == a.ip + ";" + local;
    IndexOfSeparator(a.ip, ';', local);
    IndexOfSeparator(a.localIp, ':', port);
  }

  lemma UnpackParts(raw: string, a: Addresses, extra: Extra)
    requires IndexOf(raw, ';') == |a.ip| < |raw| && raw[..|a.ip|] == a.ip && a.localIp != ""
    requires var local := raw[|a.ip| + 1..];
             && IndexOf(local, ':') == |a.localIp| < |local| && local[..|a.localIp|] == a.localIp
             && Stoi(local[|a.localIp| + 1..]) == Some(a.localPort)
    requires a.localPort < UINT32
    ensures Unpack(raw, extra) == Some(a)
  {
    hide Stoi, IndexOf;
  }

  /** Unpacking the packed field gives back all three, whatever the separate fields say. */
  lemma UnpackPack(a: Addresses, extra: Extra)
    requires a.localIp != "" && ';' !in a.ip && ':' !in a.localIp && a.localPort <= INT_MAX
    ensures Unpack(Pack(a), extra) == Some(a)
  {
    PackedParts(a);
    StoiReadsToDecimal(a.localPort);
    hide Stoi, Pack, IndexOf, ToDecimal;
    UnpackParts(Pack(a), a, extra);
  }

  /** A local address without a port gets the default one. */
  lemma UnpackWithoutPort(ip: string, localIp: string, extra: Extra)
    requires localIp != "" && ';' !in ip && ':' !in localIp
    ensures Unpack(ip + ";" + localIp, extra) == Some(Addresses(ip, localIp, 5173))
  {
    IndexOfSeparator(ip, ';', localIp);
    assert IndexOf(localIp, ':') == |localIp|;
    hide Stoi, IndexOf;
  }

  /** A `;` in the public address, or a `:` in the local one, cuts it short. */
  lemma CutPublic(ip: string, rest: string, extra: Extra)
    requires ';' in ip
    ensures var r := Unpack(ip + rest, extra); r.Some? ==> |r.value.ip| < |ip|
  {
    IndexOfEarlier(ip, ';', rest);
  }

  lemma CutLocal(ip: string, localIp: string, rest: string)
    requires ';' !in ip && ':' in localIp
    ensures var r := Unpack(ip + ";" + (localIp + rest), NO_EXTRA); r.Some? ==> |r.value.localIp| < |localIp|
  {
    IndexOfSeparator(ip, ';', localIp + rest);
    IndexOfEarlier(localIp, ':', rest);
  }

  lemma PortTooBig(a: Addresses)
    requires a.localIp != "" && ';' !in a.ip && ':' !in a.localIp && a.localPort > INT_MAX
    ensures Unpack(Pack(a), NO_EXTRA) == None
  {
    PackedParts(a);
    StoiReadsToDecimal(a.localPort);
    hide Stoi, Pack, IndexOf, ToDecimal;
  }

  /** With only the packed field at hand, these conditions are exactly the ones needed. */
  lemma UnpackPackExactly(a: Addresses)
    requires a.localIp != "" && a.localPort < UINT32
    ensures Unpack(Pack(a), NO_EXTRA) == Some(a) <==>
            ';' !in a.ip && ':' !in a.localIp && a.localPort <= INT_MAX
  {
    var rest := ":" + ToDecimal(a.localPort);
    if ';' in a.ip {
      assert Pack(a) == a.ip + (";" + a.localIp + rest);
      CutPublic(a.ip, ";" + a.localIp + rest, NO_EXTRA);
    } else if ':' in a.localIp {
      assert Pack(a) == a.ip + ";" + (a.localIp + rest);
      CutLocal(a.ip, a.localIp, rest);
    } else if a.localPort > INT_MAX {
      PortTooBig(a);
    } else {
      UnpackPack(a, NO_EXTRA);
    }
  }

  /**
   Without a local address the public one comes back unchanged exactly if it holds no `;`, and
   the local ones are those of the separate fields, where there are any.
   */
  lemma UnpackPublicOnly(ip: string, port: nat, extra: Extra)
    ensures var r := Unpack(Pack(Addresses(ip, "", port)), extra);
            && ((r.Some? && r.value.ip == ip) <==> ';' !in ip)
            && (';' !in ip ==>
                  && r.value.localIp == (match extra.localIp case Some(local) => local case None => "")
                  && r.value.localPort == (match extra.localPort case Some(p) => p case None => 0))
  {
    assert Pack(Addresses(ip, "", port)) == ip;
    if ';' in ip {
      IndexOfEarlier(ip, ';', "");
      assert ip + "" == ip;
    }
  }

  /**
   Whatever stands behind the colon is read by `stoi` and stored in 32 bits: text without a
   number throws, and a negative port wraps around.
   */
  lemma UnpackAnyPort(ip: string, localIp: string, port: string, extra: Extra)
    requires localIp != "" && ';' !in ip && ':' !in localIp
    ensures var r, n := Unpack(ip + ";" + (localIp + ":" + port), extra), Stoi(port);
            && (r.Some? <==> n.Some?)
            && (n.Some? ==>
                  r == Some(Addresses(ip, localIp, if n.value >= 0 then n.value else n.value + 0x1_0000_0000)))
  {
    var local := localIp + ":" + port;
    IndexOfSeparator(ip, ';', local);
    IndexOfSeparator(localIp, ':', port);
    StoiFits(port);
    hide IndexOf, Stoi;
  }

  lemma StoiFits(s: string)
    ensures Stoi(s).Some? ==> -0x8000_0000 <= Stoi(s).value <= 0x7FFF_FFFF
  {
  }

  /** The form of the packed field, character by character. */
  lemma PackedForm(ip: string, localIp: string)
    requires localIp != ""
    ensures Pack(Addresses(ip, localIp, 5173)) == ip + ";" + localIp + ":" + "5173"
  {
    assert ToDecimal(5) == "5" && ToDecimal(51) == "51" && ToDecimal(517) == "517" && ToDecimal(5173) == "5173";
    assert Pack(Addresses(ip, localIp, 5173)) == ip + (";" + localIp + ":" + ToDecimal(5173));
  }
}
