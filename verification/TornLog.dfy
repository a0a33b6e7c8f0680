/** What survives an append that failed half way, once further records have been appended behind it. */
module TornLog {
  import opened Bytes
  import opened RecordLog

  /** A log, the first `room` bytes of a record that did not fit, and the records that were appended afterwards. */
  function TornFile(log: seq<Record>, r: Record, room: nat, more: seq<Record>, dim: nat): seq<Byte>
    requires AllStorable(log, dim) && Storable(r, dim) && AllStorable(more, dim) && room < |Encode(r, dim)|
  {
    EncodeAll(log, dim) + Encode(r, dim)[..room] + EncodeAll(more, dim)
  }

  /** Where the records behind the torn one begin. */
  function Resumes(log: seq<Record>, room: nat, dim: nat): nat
    requires AllStorable(log, dim)
  {
    |EncodeAll(log, dim)| + room
  }

  function Shifted(ls: seq<Located>, shift: nat): (r: seq<Located>)
    ensures |r| == |ls|
  {
    seq(|ls|, i requires 0 <= i < |ls| => Located(ls[i].record, ls[i].offset + shift))
  }

  /** A record of a log is found at its offset wherever the log lies in a file. */
  lemma FetchInside(before: seq<Byte>, log: seq<Record>, behind: seq<Byte>, dim: nat, i: nat)
    requires AllStorable(log, dim) && i < |log|
    ensures Decode(before + EncodeAll(log, dim) + behind, |before| + Offset(log, dim, i), dim) == Some(Normal(log[i]))
  {
    hide Encode, PaddedSize, EncodeAll, Decode, Offset;
    var whole, data := EncodeAll(log, dim), before + EncodeAll(log, dim) + behind;
    var from, e := Offset(log, dim, i), Encode(log[i], dim);
    EncodeAllSlice(log, dim, i);
    OffsetMonotone(log, dim, i + 1, |log|);
    EndOfLog(log, dim);
    OffsetStep(log, dim, i);
    SliceInside(before, whole, behind, from, from + |e|);
    DecodeEncoded(data, |before| + from, log[i], dim);
  }

  lemma SliceInside(before: seq<Byte>, s: seq<Byte>, behind: seq<Byte>, from: nat, to: nat)
    requires from <= to <= |s|
    ensures (before + s + behind)[|before| + from..|before| + to] == s[from..to]
  {
  }

  /** Fetching by byte offset, as searches through the index do it, finds every acknowledged record, before the torn one and
      behind it. */
  lemma FetchSurvivesTear(log: seq<Record>, r: Record, room: nat, more: seq<Record>, dim: nat)
    requires AllStorable(log, dim) && Storable(r, dim) && AllStorable(more, dim) && room < |Encode(r, dim)|
    ensures var file := TornFile(log, r, room, more, dim);
            && (forall i :: 0 <= i < |log| ==> Decode(file, Offset(log, dim, i), dim) == Some(Normal(log[i])))
            && forall i :: 0 <= i < |more| ==>
                 Decode(file, Resumes(log, room, dim) + Offset(more, dim, i), dim) == Some(Normal(more[i]))
  {
    hide Encode, EncodeAll, Decode, Offset;
    var file := TornFile(log, r, room, more, dim);
    var a, t, b := EncodeAll(log, dim), Encode(r, dim)[..room], EncodeAll(more, dim);
    assert file == [] + a + (t + b) && file == (a + t) + b + [];
    forall i | 0 <= i < |log|
      ensures Decode(file, Offset(log, dim, i), dim) == Some(Normal(log[i]))
    {
      FetchInside([], log, t + b, dim, i);
    }
    forall i | 0 <= i < |more|
      ensures Decode(file, Resumes(log, room, dim) + Offset(more, dim, i), dim) == Some(Normal(more[i]))
    {
      FetchInside(a + t, more, [], dim, i);
    }
  }

  // ---- replay ----

  /** Replay reads through a log and goes on behind it. */
  lemma {:induction false} ReplayThrough(log: seq<Record>, behind: seq<Byte>, dim: nat, i: nat)
    requires AllStorable(log, dim) && i <= |log|
    ensures Replay(EncodeAll(log, dim) + behind, Offset(log, dim, i), dim)
         == LocatedLog(log, dim)[i..] + Replay(EncodeAll(log, dim) + behind, |EncodeAll(log, dim)|, dim)
    decreases |log| - i
  {
    hide Encode, PaddedSize, EncodeAll, Decode, Replay, LocatedLog, Offset;
    var data, pos := EncodeAll(log, dim) + behind, Offset(log, dim, i);
    EndOfLog(log, dim);
    if i < |log| {
      ReplayThrough(log, behind, dim, i + 1);
      assert data == [] + EncodeAll(log, dim) + behind;
      FetchInside([], log, behind, dim, i);
      ReplayStep(data, pos, dim);
      OffsetStep(log, dim, i);
      NormalKeepsSize(log[i]);
      LocatedStep(log, dim, i, |log|);
      assert LocatedLog(log, dim)[i..] == LocatedLog(log, dim)[i..|log|];
      assert LocatedLog(log, dim)[i + 1..] == LocatedLog(log, dim)[i + 1..|log|];
    }
  }

  lemma NormalKeepsSize(r: Record)
    ensures |MetaBytes(Normal(r))| == |MetaBytes(r)|
  {
  }

  /** Behind the first record that it reads, replay never goes back into it. */
  lemma {:induction false} ReplayAdvances(data: seq<Byte>, pos: nat, dim: nat, t: nat)
    requires t < |Replay(data, pos, dim)|
    ensures Decode(data, pos, dim).Some?
    ensures var l := Replay(data, pos, dim)[t];
            if t == 0 then l.offset == pos
            else l.offset >= pos + PaddedSize(dim, |MetaBytes(Decode(data, pos, dim).value)|)
    decreases t
  {
    hide Decode, PaddedSize;
    if t > 0 {
      ReplayAdvances(data, pos + PaddedSize(dim, |MetaBytes(Decode(data, pos, dim).value)|), dim, t - 1);
    }
  }

  /** What replay makes of the torn bytes reaches past the place where the next record begins. */
  lemma TearOverlaps(data: seq<Byte>, pos: nat, r: Record, room: nat, dim: nat)
    requires Storable(r, dim) && room < |Encode(r, dim)| && pos + room <= |data|
    requires data[pos..pos + room] == Encode(r, dim)[..room]
    requires Decode(data, pos, dim).Some?
    ensures PaddedSize(dim, |MetaBytes(Decode(data, pos, dim).value)|) > room
  {
    hide Encode, LittleEndian, FromLittleEndian, EncodeWords, DecodeWords;
    if room >= HEADER_BYTES {
      var e, len := Encode(r, dim), |MetaBytes(r)|;
      Pow256Values();
      EncodedFields(r, dim);
      SliceOfSlice(data, pos, e[..room], 16, 24);
      assert e[..room][16..24] == e[16..24];
      LittleEndianRoundTrip(len, 8);
    }
  }

  lemma NothingWritten(dim: nat)
    ensures EncodeAll([], dim) == [] && LocatedLog([], dim) == []
  {
  }

  /** Whatever part of the next record reached the disk, replay returns the old log and nothing else. */
  lemma TornAppendKeepsLog(log: seq<Record>, r: Record, dim: nat, n: nat)
    requires AllStorable(log, dim) && Storable(r, dim) && n < |Encode(r, dim)|
    ensures Replay(EncodeAll(log, dim) + Encode(r, dim)[..n], 0, dim) == LocatedLog(log, dim)
  {
    hide Encode, EncodeAll, PaddedSize, Replay, Decode, LocatedLog, Offset;
    var file, end := EncodeAll(log, dim) + Encode(r, dim)[..n], |EncodeAll(log, dim)|;
    OffsetZero(log, dim);
    ReplayThrough(log, Encode(r, dim)[..n], dim, 0);
    assert file[end..] == Encode(r, dim)[..n];
    DecodeTorn(file, end, r, dim);
    ReplayStep(file, end, dim);
  }

  lemma OffsetZero(log: seq<Record>, dim: nat)
    requires AllStorable(log, dim)
    ensures Offset(log, dim, 0) == 0
  {
    assert log[..0] == [];
  }

  lemma LocatedConcat(log: seq<Record>, more: seq<Record>, dim: nat)
    requires AllStorable(log, dim) && AllStorable(more, dim)
    ensures AllStorable(log + more, dim)
    ensures LocatedLog(log + more, dim) == LocatedLog(log, dim) + Shifted(LocatedLog(more, dim), |EncodeAll(log, dim)|)
  {
    hide EncodeAll;
    var whole := log + more;
    forall i | 0 <= i < |log|
      ensures Offset(whole, dim, i) == Offset(log, dim, i)
    {
      assert whole[..i] == log[..i];
    }
    forall i | 0 <= i < |more|
      ensures Offset(whole, dim, |log| + i) == |EncodeAll(log, dim)| + Offset(more, dim, i)
    {
      assert whole[..|log| + i] == log + more[..i];
      EncodeAllAppend(log, more[..i], dim);
    }
  }

  /** Exactly when replay still recovers everything that was acknowledged: nothing was torn, or nothing was appended
      behind it. */
  lemma ReplayAfterTearIff(log: seq<Record>, r: Record, room: nat, more: seq<Record>, dim: nat)
    requires AllStorable(log, dim) && Storable(r, dim) && AllStorable(more, dim) && room < |Encode(r, dim)|
    ensures Replay(TornFile(log, r, room, more, dim), 0, dim)
            == LocatedLog(log, dim) + Shifted(LocatedLog(more, dim), Resumes(log, room, dim))
       <==> room == 0 || more == []
  {
    hide Encode, EncodeAll, Decode, Replay, LocatedLog, Offset, PaddedSize;
    var file, end := TornFile(log, r, room, more, dim), |EncodeAll(log, dim)|;
    if more == [] {
      NothingWritten(dim);
      assert file == EncodeAll(log, dim) + Encode(r, dim)[..room];
      TornAppendKeepsLog(log, r, dim, room);
      assert LocatedLog(log, dim) + [] == LocatedLog(log, dim);
    } else if room == 0 {
      LocatedConcat(log, more, dim);
      EncodeAllAppend(log, more, dim);
      assert file == EncodeAll(log + more, dim);
      ReplayWholeLog(log + more, dim);
    } else {
      TearHidesNext(log, r, room, more, dim);
      var expected := LocatedLog(log, dim) + Shifted(LocatedLog(more, dim), Resumes(log, room, dim));
      FirstLocated(more, dim);
      assert expected[|log|].offset == Resumes(log, room, dim);
    }
  }

  lemma FirstLocated(log: seq<Record>, dim: nat)
    requires AllStorable(log, dim) && log != []
    ensures LocatedLog(log, dim)[0].offset == 0
  {
    OffsetZero(log, dim);
  }

  /** Replay first returns the old log. Then it takes the torn bytes for a record that covers the beginning of the next
      one, and so never finds the next one, although it was acknowledged. */
  lemma TearHidesNext(log: seq<Record>, r: Record, room: nat, more: seq<Record>, dim: nat)
    requires AllStorable(log, dim) && Storable(r, dim) && AllStorable(more, dim) && 0 < room < |Encode(r, dim)|
    ensures var found := Replay(TornFile(log, r, room, more, dim), 0, dim);
            && LocatedLog(log, dim) <= found
            && forall t :: 0 <= t < |found| ==> found[t].offset != Resumes(log, room, dim)
  {
    hide Encode, EncodeAll, Decode, Replay, LocatedLog, Offset, PaddedSize;
    var file, end := TornFile(log, r, room, more, dim), |EncodeAll(log, dim)|;
    var tear := Encode(r, dim)[..room] + EncodeAll(more, dim);
    assert file == EncodeAll(log, dim) + tear;
    OffsetZero(log, dim);
    ReplayThrough(log, tear, dim, 0);
    assert file[end..end + room] == Encode(r, dim)[..room];
    forall t | 0 <= t < |log|
      ensures LocatedLog(log, dim)[t].offset <= end
    {
      LocatedInside(log, dim, t);
    }
    var rest := Replay(file, end, dim);
    forall t | 0 <= t < |rest|
      ensures rest[t].offset != end + room
    {
      ReplayAdvances(file, end, dim, t);
      TearOverlaps(file, end, r, room, dim);
    }
  }

  lemma LocatedInside(log: seq<Record>, dim: nat, i: nat)
    requires AllStorable(log, dim) && i < |log|
    ensures LocatedLog(log, dim)[i].offset <= |EncodeAll(log, dim)|
  {
    EncodeAllPrefix(log, dim, i);
  }
}
