/** The cursor loop that decodes a MACCommandSet, and the loop that prints one (lrwn/src/maccommand.rs). */
module MacSet {
  import opened Bytes
  import opened MacCommands
  import opened MacStream

  /** A reading position in a byte string. */
  class Cursor {
    const data: bytes
    var pos: nat

    ghost predicate Valid()
      reads this
    {
      pos <= |data|
    }

    ghost function Rest(): bytes
      reads this
      requires Valid()
    {
      data[pos..]
    }

    constructor (b: bytes)
      ensures Valid() && Rest() == b
    {
      data := b;
      pos := 0;
    }

    method ReadExact(n: nat) returns (r: Option<bytes>)
      requires Valid()
      modifies this
      ensures Valid()
      ensures r.Some? <==> n <= |old(Rest())|
      ensures r.Some? ==> r.value == old(Rest())[..n] && Rest() == old(Rest())[n..]
    {
      if n > |data| - pos {
        pos := |data|;
        return None;
      }
      r := Some(data[pos..pos + n]);
      pos := pos + n;
    }

    method ReadToEnd() returns (b: bytes)
      requires Valid()
      modifies this
      ensures Valid() && b == old(Rest()) && Rest() == []
    {
      b := data[pos..];
      pos := |data|;
    }
  }

  /** The payload decoders: read the fixed part, then for a filter as many bytes as its length says. */
  method ReadPayload(cid: CID, cur: Cursor) returns (r: Result<MACCommand>)
    requires !cid.RawId? && cur.Valid()
    modifies cur
    ensures cur.Valid()
    ensures match DecodePayload(cid, old(cur.Rest()))
            case Err => r.Err?
            case Ok((m, n)) => r == Ok(m) && n <= |old(cur.Rest())| && cur.Rest() == old(cur.Rest())[n..]
  {
    hide ParsePayload, FixedLen, FilterLen;
    ghost var rest := cur.Rest();
    var head := cur.ReadExact(FixedLen(cid));
    if head.None? {
      return Err;
    }
    var b := head.value;
    if cid.FilterListReqId? {
      FilterHasHead();
      var eui := cur.ReadExact(FilterLen(b[0]));
      if eui.None? {
        return Err;
      }
      b := b + eui.value;
    }
    assert b == rest[..|b|] && PayloadLen(cid, rest) == Some(|b|);
    PrefixLen(cid, rest, |b|);
    r := ParsePayload(cid, b);
  }

  lemma FilterHasHead()
    ensures FixedLen(FilterListReqId) == 2
  {}

  /** The outcome of a whole loop, given what is done already and the outcome for what is left. */
  ghost predicate Continues<T>(total: Result<seq<T>>, done: seq<T>, rest: Result<seq<T>>) {
    match rest
    case Err => total.Err?
    case Ok(s) => total == Ok(done + s)
  }

  lemma Begin<T>(total: Result<seq<T>>)
    ensures Continues(total, [], total)
  {
    if total.Ok? {
      assert [] + total.value == total.value;
    }
  }

  lemma Finish<T>(total: Result<seq<T>>, done: seq<T>)
    requires Continues(total, done, Ok([]))
    ensures total == Ok(done)
  {
    assert done + [] == done;
  }

  lemma Failed<T>(total: Result<seq<T>>, done: seq<T>)
    requires Continues(total, done, Err)
    ensures total.Err?
  {}

  lemma Advance<T>(total: Result<seq<T>>, done: seq<T>, s: seq<T>, rest: Result<seq<T>>)
    requires Continues(total, done, if rest.Ok? then Ok(s + rest.value) else Err)
    ensures Continues(total, done + s, rest)
  {
    if rest.Ok? {
      assert done + (s + rest.value) == done + s + rest.value;
    }
  }

  class MACCommandSet {
    var cmds: seq<MACCommand>

    constructor (cmds: seq<MACCommand>)
      ensures this.cmds == cmds
    {
      this.cmds := cmds;
    }

    method ToVec() returns (r: Result<bytes>)
      ensures r == EncodeAll(cmds)
    {
      hide EncodeCommand, Continues;
      var out: bytes := [];
      assert cmds[0..] == cmds;
      Begin(EncodeAll(cmds));
      for i := 0 to |cmds|
        invariant Continues(EncodeAll(cmds), out, EncodeAll(cmds[i..]))
      {
        assert cmds[i..][1..] == cmds[i + 1..];
        var b := EncodeCommand(cmds[i]);
        if b.Err? {
          Failed(EncodeAll(cmds), out);
          return Err;
        }
        Advance(EncodeAll(cmds), out, b.value, EncodeAll(cmds[i + 1..]));
        out := out + b.value;
      }
      Finish(EncodeAll(cmds), out);
      return Ok(out);
    }

    /** Replaces a single Raw by the commands in it; on an error the set stays as it was. */
    method DecodeFromRaw(uplink: bool) returns (r: Result<()>)
      modifies this
      ensures match DecodedSet(old(cmds), uplink)
              case Err => r.Err? && cmds == old(cmds)
              case Ok(decoded) => r.Ok? && cmds == decoded
      ensures !(|old(cmds)| == 1 && old(cmds)[0].Raw?) ==> r.Ok? && cmds == old(cmds)
      ensures |old(cmds)| == 1 && old(cmds)[0].Raw? ==>
                match DecodeAll(uplink, old(cmds)[0].raw)
                case Err => r.Err? && cmds == old(cmds)
                case Ok(decoded) => r.Ok? && cmds == decoded
    {
      hide DecodePayload, CID.FromU8, Continues;
      if |cmds| != 1 || !cmds[0].Raw? {
        return Ok(());
      }
      ghost var total := DecodeAll(uplink, cmds[0].raw);
      var cur := new Cursor(cmds[0].raw);
      var commands: seq<MACCommand> := [];
      Begin(total);
      while true
        invariant cur.Valid() && fresh(cur)
        invariant cmds == old(cmds)
        invariant Continues(total, commands, DecodeAll(uplink, cur.Rest()))
        decreases |cur.Rest()|
      {
        ghost var rest := cur.Rest();
        var first := cur.ReadExact(1);
        if first.None? {
          assert rest == [];
          break;
        }
        var b := first.value;
        CidNotRaw(uplink, b[0]);
        CommandSize(uplink, rest);
        var cid := CID.FromU8(uplink, b[0]);
        if cid.Err? {
          var tail := cur.ReadToEnd();
          assert b + tail == rest && rest[|rest|..] == [];
          Advance(total, commands, [Raw(b + tail)], Ok([]));
          commands := commands + [Raw(b + tail)];
          break;
        }
        var m := ReadPayload(cid.value, cur);
        if m.Err? {
          Failed(total, commands);
          return Err;
        }
        assert rest[1..][DecodePayload(cid.value, rest[1..]).value.1..] == cur.Rest();
        Advance(total, commands, [m.value], DecodeAll(uplink, cur.Rest()));
        commands := commands + [m.value];
      }
      Finish(total, commands);
      cmds := commands;
      return Ok(());
    }
  }
}
