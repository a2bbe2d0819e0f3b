/**
The key holder lists as the daemon keeps them: read from a file line by line, and printed into a reply
buffer.
*/
module Rxkh {
  import opened Text
  import opened RxkhSpec
  import opened RxkhLines

  /** Where hostapd_config_read_rxkh_file reads from: no name, a missing file, or a file's text. */
  datatype Source = NoName | Missing | File(text: string)

  // ---------------------------------------------------------------------------------------------
  // Printing into a buffer
  // ---------------------------------------------------------------------------------------------

  lemma HexOfNext(bs: seq<byte>, i: nat)
    requires i < |bs|
    ensures HexOf(bs[..i + 1]) == HexOf(bs[..i]) + HexByte(bs[i])
  {
    assert bs[..i + 1] == bs[..i] + [bs[i]];
    HexOfAppend(bs[..i], [bs[i]]);
  }

  lemma HexOfNothing(bs: seq<byte>)
    requires bs == []
    ensures HexOf(bs) == ""
  {
  }

  /** wpa_snprintf_hex: stops before the first byte whose digits do not fit. */
  method PrintHex(buf: array<char>, from: nat, key: Key) returns (pos: nat)
    requires from < buf.Length
    modifies buf
    ensures pos == from + 2 * KeyBytes(buf.Length - from) && pos < buf.Length
    ensures buf[..pos] == old(buf[..from]) + HexOf(key[..KeyBytes(buf.Length - from)])
  {
    hide HexByte, HexOf;
    ghost var head := buf[..from];
    HexOfNothing(key[..0]);
    pos := from;
    for i := 0 to KEY_LEN
      invariant pos == from + 2 * i < buf.Length
      invariant buf[..pos] == head + HexOf(key[..i])
    {
      var ret := Snprintf(buf, pos, HexByte(key[i]));
      if ret >= buf.Length - pos {
        assert buf[..pos] == head + HexOf(key[..i]);
        buf[buf.Length - 1] := NUL;
        assert buf[..pos] == head + HexOf(key[..i]);
        return;
      }
      HexOfNext(key, i);
      assert buf[..pos + 2] == buf[..pos] + HexByte(key[i]);
      pos := pos + ret;
    }
    buf[buf.Length - 1] := NUL;
    assert buf[..pos] == head + HexOf(key[..KEY_LEN]);
  }

  /** The end of a line: the key and the newline, at `pos` after the complete prefix. */
  method FinishLine(buf: array<char>, start: nat, pos: nat, ghost j: Job, key: Key) returns (end: Option<nat>)
    requires start <= pos == start + |j.prefix| < buf.Length && j.key == key
    requires buf[start..pos] == j.prefix
    modifies buf
    ensures PrintedLine(buf, start, j, end, old(buf[..start]))
  {
    hide HexOf;
    ghost var head, n := buf[..start], KeyBytes(buf.Length - pos);
    assert buf[..pos] == head + j.prefix;
    var at := PrintHex(buf, pos, key);
    ghost var body := buf[..at];
    assert body == head + j.prefix + HexOf(key[..n]);
    var ret := Snprintf(buf, at, "\n");
    assert buf[..at] == body;
    if ret >= buf.Length - at {
      assert buf[..start] == body[..start] == head;
      return None;
    }
    end := Some(at + 1);
    assert buf[..at + 1] == body + "\n" == head + LineOf(j, n);
  }

  /** The line of `j` was printed at `start` up to `end`, as far as the printer prints it. */
  ghost predicate PrintedLine(buf: array<char>, start: nat, j: Job, end: Option<nat>, head: string)
    requires start <= buf.Length
    reads buf
  {
    var r := Emit(j, buf.Length - start);
    && |head| == start && end.Some? == r.Some?
    && if r.Some? then end.value == start + |r.value| < buf.Length && buf[..end.value] == head + r.value
       else buf[..start] == head
  }

  method PrintLine0(buf: array<char>, start: nat, e: R0kh) returns (end: Option<nat>)
    requires start < buf.Length
    modifies buf
    ensures PrintedLine(buf, start, Job0(e), end, old(buf[..start]))
  {
    ghost var head := buf[..start];
    var mac := "r0kh=" + MacText(e.addr) + " ";
    var ret := Snprintf(buf, start, mac);
    assert buf[..start] == head;
    if ret >= buf.Length - start {
      return None;
    }
    var pos := start + ret;
    if |e.id| + 1 >= buf.Length - pos {
      return None;
    }
    forall i | 0 <= i < |e.id| {
      buf[pos + i] := e.id[i];
    }
    pos := pos + |e.id|;
    buf[pos] := ' ';
    pos := pos + 1;
    assert buf[start..pos] == mac + e.id + " " == Job0(e).prefix;
    assert buf[..start] == head;
    end := FinishLine(buf, start, pos, Job0(e), e.key);
  }

  method PrintLine1(buf: array<char>, start: nat, e: R1kh) returns (end: Option<nat>)
    requires start < buf.Length
    modifies buf
    ensures PrintedLine(buf, start, Job1(e), end, old(buf[..start]))
  {
    ghost var head := buf[..start];
    var mac := "r1kh=" + MacText(e.addr) + " " + MacText(e.id) + " ";
    var ret := Snprintf(buf, start, mac);
    assert buf[..start] == head;
    if ret >= buf.Length - start {
      return None;
    }
    assert mac == Job1(e).prefix;
    end := FinishLine(buf, start, start + ret, Job1(e), e.key);
  }

  /** The text printed so far, completed by the rest of the listing. */
  function Completed(head: string, rest: seq<Job>, room: nat): string {
    head + Listing(rest, room)
  }

  lemma Advance(all: seq<Job>, i: nat, head: string, room: nat)
    requires i < |all|
    ensures var r := Emit(all[i], room);
            Completed(head, all[i..], room)
            == if r.None? then head else Completed(head + r.value, all[i + 1..], room - |r.value|)
  {
    assert all[i..][0] == all[i] && all[i..][1..] == all[i + 1..];
  }

  lemma Finished(all: seq<Job>, i: nat, head: string, room: nat)
    requires i == |all|
    ensures Completed(head, all[i..], room) == head
  {
  }

  /** The first loop of the printer; `more` is what the second one prints. An empty buffer stops it. */
  method PrintList0(buf: array<char>, es: seq<R0kh>, ghost more: seq<Job>) returns (pos: nat, stopped: bool)
    modifies buf
    ensures pos <= buf.Length
    ensures Completed(buf[..pos], if stopped then [] else more, buf.Length - pos)
            == Listing(Jobs0(es) + more, buf.Length)
  {
    hide *;
    ghost var all := Jobs0(es) + more;
    pos, stopped := 0, false;
    var i := 0;
    AtStart(all, buf[..pos], buf.Length);
    while i < |es|
      invariant 0 <= i <= |es| && pos <= buf.Length
      invariant Completed(buf[..pos], all[i..], buf.Length - pos) == Listing(all, buf.Length)
    {
      ghost var head := buf[..pos];
      Advance(all, i, head, buf.Length - pos);
      Finished([], 0, head, buf.Length - pos);
      if pos == buf.Length {
        EmitNeedsRoom(all[i]);
        stopped := true;
        return;
      }
      var end := PrintLine0(buf, pos, es[i]);
      PrintedCases(buf, pos, Job0(es[i]), end, head);
      if end.None? {
        stopped := true;
        return;
      }
      pos := end.value;
      i := i + 1;
    }
    assert all[i..] == more;
  }

  /** The second loop of the printer. */
  method PrintList1(buf: array<char>, start: nat, es: seq<R1kh>) returns (pos: nat)
    requires start <= buf.Length
    modifies buf
    ensures pos <= buf.Length && buf[..pos] == Completed(old(buf[..start]), Jobs1(es), buf.Length - start)
  {
    hide *;
    ghost var all, head0 := Jobs1(es), buf[..start];
    pos := start;
    var i := 0;
    assert all[0..] == all;
    while i < |es|
      invariant 0 <= i <= |es| && pos <= buf.Length
      invariant Completed(buf[..pos], all[i..], buf.Length - pos) == Completed(head0, all, buf.Length - start)
    {
      ghost var head := buf[..pos];
      Advance(all, i, head, buf.Length - pos);
      if pos == buf.Length {
        EmitNeedsRoom(all[i]);
        return;
      }
      var end := PrintLine1(buf, pos, es[i]);
      PrintedCases(buf, pos, Job1(es[i]), end, head);
      if end.None? {
        return;
      }
      pos := end.value;
      i := i + 1;
    }
    Finished(all, i, buf[..pos], buf.Length - pos);
  }

  lemma AtStart(all: seq<Job>, head: string, room: nat)
    requires head == ""
    ensures Completed(head, all[0..], room) == Listing(all, room)
  {
    assert all[0..] == all;
  }

  lemma EmitNeedsRoom(j: Job)
    ensures Emit(j, 0).None?
  {
  }

  lemma PrintedCases(buf: array<char>, start: nat, j: Job, end: Option<nat>, head: string)
    requires start <= buf.Length && PrintedLine(buf, start, j, end, head)
    ensures var r := Emit(j, buf.Length - start);
            end.Some? == r.Some?
            && if r.Some? then end.value == start + |r.value| < buf.Length && buf[..end.value] == head + r.value
               else buf[..start] == head
  {
  }

  class Config {
    var r0khList: seq<R0kh>
    var r1khList: seq<R1kh>

    function Lists(errors: nat): Lists
      reads this
    {
      RxkhSpec.Lists(r0khList, r1khList, errors)
    }

    /** add_r0kh: prepends the entry the value spells, or fails and changes nothing. */
    method AddR0kh(value: string, kdf: Kdf) returns (ok: bool)
      modifies this
      ensures ok == ParseR0kh(value, kdf).Some?
      ensures Lists(if ok then 0 else 1) == Added0(old(Lists(0)), ParseR0kh(value, kdf))
    {
      var next := Find(value, ' ');
      if next == |value| {
        return false;
      }
      var addr := ParseMac(value[..next], ETH_ALEN);
      if addr.None? {
        return false;
      }
      var pos := value[next + 1..];
      next := Find(pos, ' ');
      if next == |pos| || next + 1 > FT_R0KH_ID_MAX_LEN {
        return false;
      }
      var id := pos[..next];
      var key := DeriveKey(pos[next + 1..], kdf);
      if key.None? {
        return false;
      }
      r0khList := [R0kh(addr.value, id, key.value)] + r0khList;
      return true;
    }

    /** add_r1kh */
    method AddR1kh(value: string, kdf: Kdf) returns (ok: bool)
      modifies this
      ensures ok == ParseR1kh(value, kdf).Some?
      ensures Lists(if ok then 0 else 1) == Added1(old(Lists(0)), ParseR1kh(value, kdf))
    {
      var next := Find(value, ' ');
      if next == |value| {
        return false;
      }
      var addr := ParseMac(value[..next], ETH_ALEN);
      if addr.None? {
        return false;
      }
      var pos := value[next + 1..];
      next := Find(pos, ' ');
      if next == |pos| {
        return false;
      }
      var id := ParseMac(pos[..next], ETH_ALEN);
      if id.None? {
        return false;
      }
      var key := DeriveKey(pos[next + 1..], kdf);
      if key.None? {
        return false;
      }
      r1khList := [R1kh(addr.value, id.value, key.value)] + r1khList;
      return true;
    }

    /** One turn of the reading loop on the text fgets delivered; `errors` counts bad lines. */
    method HandleLine(buf: string, errors: nat, kdf: Kdf) returns (now: nat)
      modifies this
      ensures Lists(now) == ReadLine(buf, old(Lists(errors)), kdf)
      ensures IsSkipped(Content(buf)) ==> Lists(now) == old(Lists(errors))
      ensures forall e :: IsR0kh(Content(buf), e, kdf) ==>
                now == errors && r0khList == [e] + old(r0khList) && r1khList == old(r1khList)
      ensures forall e :: IsR1kh(Content(buf), e, kdf) ==>
                now == errors && r0khList == old(r0khList) && r1khList == [e] + old(r1khList)
      ensures !IsGood(Content(buf), kdf) ==>
                now == errors + 1 && r0khList == old(r0khList) && r1khList == old(r1khList)
    {
      hide IsSkipped, IsR0kh, IsR1kh, IsGood;
      ChunkByKind(buf, Lists(errors), kdf);
      now := errors;
      if buf != "" && buf[0] == '#' {
        return;
      }
      var pos := 0;
      while pos < |buf| && buf[pos] != NUL && buf[pos] != '\n'
        invariant 0 <= pos <= |buf|
        invariant forall j :: 0 <= j < pos ==> buf[j] != NUL && buf[j] != '\n'
      {
        pos := pos + 1;
      }
      var line := buf[..pos];
      assert line == Content(buf);
      if line == "" {
        return;
      }
      var eq := Find(line, '=');
      if eq == |line| {
        now := errors + 1;
        return;
      }
      var ok := true;
      if line[..eq] == "r0kh" {
        ok := AddR0kh(line[eq + 1..], kdf);
      } else if line[..eq] == "r1kh" {
        ok := AddR1kh(line[eq + 1..], kdf);
      }
      now := if ok then errors else errors + 1;
    }

    /** hostapd_config_read_rxkh_file: good lines are kept even when the result is a failure. */
    method ReadFile(source: Source, kdf: Kdf) returns (ret: int)
      modifies this
      ensures !source.File? ==> Lists(0) == old(Lists(0)) && ret == if source.Missing? then -1 else 0
      ensures source.File? ==> var r := ReadFrom(source.text, old(Lists(0)), kdf);
                Lists(r.errors) == r && ret == if r.errors == 0 then 0 else -1
      ensures source.File? ==>
                forall lines :: ArePieces(lines) && source.text == FileOf(lines) ==>
                  (ret == 0 <==> forall i :: 0 <= i < |lines| ==> IsGood(CStr(lines[i]), kdf))
    {
      hide IsGood, FileOf, ArePieces, CStr;
      if source.File? {
        forall lines | ArePieces(lines) && source.text == FileOf(lines)
          ensures ReadFrom(source.text, Lists(0), kdf).errors == 0
                  <==> forall i :: 0 <= i < |lines| ==> IsGood(CStr(lines[i]), kdf)
        {
          NoErrorIff(lines, Lists(0), kdf);
        }
      }
      if source.NoName? {
        return 0;
      }
      if source.Missing? {
        return -1;
      }
      var errors, rest := 0, source.text;
      while rest != ""
        invariant ReadFrom(rest, Lists(errors), kdf) == ReadFrom(source.text, old(Lists(0)), kdf)
        decreases |rest|
      {
        var n := FgetsLen(rest, LINE_BUF);
        errors := HandleLine(rest[..n], errors, kdf);
        rest := rest[n..];
      }
      ret := if errors > 0 then -1 else 0;
    }

    /** hostapd_ctrl_iface_reload_rxkhs */
    method Reload(source: Source, kdf: Kdf) returns (ret: int)
      modifies this
      ensures source.File? ==> var r := ReadFrom(source.text, RxkhSpec.Lists([], [], 0), kdf);
                Lists(r.errors) == r && ret == if r.errors == 0 then 0 else -1
      ensures !source.File? ==> Lists(0) == RxkhSpec.Lists([], [], 0) && ret == if source.Missing? then -1 else 0
      ensures source.File? ==>
                forall lines :: ArePieces(lines) && source.text == FileOf(lines) ==>
                  (ret == 0 <==> forall i :: 0 <= i < |lines| ==> IsGood(CStr(lines[i]), kdf))
    {
      r0khList := [];
      r1khList := [];
      ret := ReadFile(source, kdf);
      if ret < 0 {
        ret := -1;
      }
    }

    /** hostapd_ctrl_iface_get_rxkhs: the reply is the first `len` characters of the buffer. */
    method GetRxkhs(buf: array<char>) returns (len: nat)
      modifies buf
      ensures len <= buf.Length && buf[..len] == Listing(Jobs(r0khList, r1khList), buf.Length)
    {
      var stopped;
      len, stopped := PrintList0(buf, r0khList, Jobs1(r1khList));
      if !stopped {
        len := PrintList1(buf, len, r1khList);
      } else {
        Finished([], 0, buf[..len], buf.Length - len);
      }
    }
  }
}
