/**
  The routing table of extensions/dataflow/wiring_engine.c: compiling a wiring list into rows, and
  reading the rows of an output port back when a token is dispatched.
 */
module Wiring {
  import opened Common

  const INVALID_GID := 0xff

  datatype Kind = OutputRecord | InputRecord | EndTable | BeginParameters | OtherRecord

  /**
    A record of the configuration file, with what the engine finds out about it: the module that
    process_module gives for its element, and the function block that the subscription of an input
    port gives.
   */
  datatype Record = Record(kind: Kind, pid: Option<int>, port: int, cb: Option<int>, last: bool)

  datatype Input = Input(pid: int, port: int, cb: int)
  datatype OutPort = OutPort(pid: int, port: int)
  datatype Group = Group(out: OutPort, ins: seq<Input>)

  /** A row of the routing table: the fanout of an output port, or byte and block of an input port. */
  datatype Row = Row(index: int, cb: int)

  /** What dispatch makes of a row: element, port and function block. */
  datatype Visit = Visit(elem: int, port: int, cb: int)

  // ---------------------------------------------------------------------------------------------
  // The wiring list
  // ---------------------------------------------------------------------------------------------

  predicate GoodInput(r: Record) { r.kind == InputRecord && r.pid.Some? && r.cb.Some? }

  /** The input records from i on up to the one marked as the last. */
  function ParseInputs(rs: seq<Record>, i: nat): Option<seq<Input>>
    decreases |rs| - i
  {
    if i >= |rs| || !GoodInput(rs[i]) then None
    else
      var x := Input(rs[i].pid.value, rs[i].port, rs[i].cb.value);
      if rs[i].last then Some([x])
      else
        var rest := ParseInputs(rs, i + 1);
        if rest.None? then None else Some([x] + rest.value)
  }

  /** The groups from record i on; None when the list is malformed or an element cannot be had. */
  function Parse(rs: seq<Record>, i: nat): Option<seq<Group>>
    decreases |rs| - i
  {
    if i >= |rs| then None
    else if rs[i].kind == EndTable || rs[i].kind == BeginParameters then Some([])
    else if rs[i].kind != OutputRecord || rs[i].pid.None? then None
    else
      var ins := ParseInputs(rs, i + 1);
      if ins.None? then None
      else
        var rest := Parse(rs, i + 1 + |ins.value|);
        if rest.None? then None else Some([Group(OutPort(rs[i].pid.value, rs[i].port), ins.value)] + rest.value)
  }

  // ---------------------------------------------------------------------------------------------
  // The routing table
  // ---------------------------------------------------------------------------------------------

  /** The byte of an input port: element number in the high bits, port in the three low bits. */
  function Pack(x: Input): int { x.pid % 16 * 8 + x.port % 8 }

  function Entries(ins: seq<Input>): (r: seq<Row>)
    ensures |r| == |ins| && forall i :: 0 <= i < |ins| ==> r[i] == Row(Pack(ins[i]), ins[i].cb)
    decreases |ins|
  {
    if ins == [] then [] else [Row(Pack(ins[0]), ins[0].cb)] + Entries(ins[1..])
  }

  function Rows(gs: seq<Group>): (r: seq<Row>)
    decreases |gs|
  {
    if gs == [] then [] else
    var n := |gs| - 1;
    Rows(gs[..n]) + ([Row(|gs[n].ins|, 0)] + Entries(gs[n].ins))
  }

  /** The group ids in the headers, after the output ports of the groups are patched in order. */
  function Patched(fids: map<OutPort, int>, gs: seq<Group>): map<OutPort, int>
    decreases |gs|
  {
    if gs == [] then fids else
    var n := |gs| - 1;
    Patched(fids, gs[..n])[gs[n].out := |Rows(gs[..n])|]
  }

  /** The last group that is configured for the port, or -1. */
  function LastGroup(gs: seq<Group>, out: OutPort): (k: int)
    ensures -1 <= k < |gs| && (k >= 0 ==> gs[k].out == out) && forall l :: k < l < |gs| ==> gs[l].out != out
    decreases |gs|
  {
    if gs == [] then -1 else
    var n := |gs| - 1;
    if gs[n].out == out then n else LastGroup(gs[..n], out)
  }

  /** Direct interpretation: the input ports wired to an output port, in the order of the list. */
  function Direct(ins: seq<Input>): (r: seq<Visit>)
    ensures |r| == |ins| && forall i :: 0 <= i < |ins| ==> r[i] == Visit(ins[i].pid % 16, ins[i].port % 8, ins[i].cb)
    decreases |ins|
  {
    if ins == [] then [] else [Visit(ins[0].pid % 16, ins[0].port % 8, ins[0].cb)] + Direct(ins[1..])
  }

  /** What dispatch reads: the fanout at the group id, then that many rows. */
  function Routed(table: seq<Row>, gid: int): Option<seq<Row>> {
    if 0 <= gid < |table| && 0 <= table[gid].index && gid + table[gid].index < |table|
    then Some(table[gid + 1..gid + 1 + table[gid].index]) else None
  }

  lemma RowsAppend(gs: seq<Group>, g: Group)
    ensures Rows(gs + [g]) == Rows(gs) + ([Row(|g.ins|, 0)] + Entries(g.ins))
  {
  }

  /** The records from i on are those of the group: an output record, then its inputs, the last one marked. */
  ghost predicate GroupAt(rs: seq<Record>, i: int, g: Group) {
    && 0 <= i && i + |g.ins| < |rs| && 0 < |g.ins|
    && rs[i].kind == OutputRecord && rs[i].pid == Some(g.out.pid) && rs[i].port == g.out.port
    && InputsAt(rs, i + 1, g.ins)
  }

  predicate InputRec(r: Record, x: Input, last: bool) {
    r.kind == InputRecord && r.pid == Some(x.pid) && r.port == x.port && r.cb == Some(x.cb) && r.last == last
  }

  ghost predicate InputsAt(rs: seq<Record>, i: int, ins: seq<Input>) {
    && 0 <= i && i + |ins| <= |rs| && 0 < |ins|
    && forall j :: 0 <= j < |ins| ==> InputRec(rs[i + j], ins[j], j == |ins| - 1)
  }

  predicate EndAt(rs: seq<Record>, i: int) {
    0 <= i < |rs| && (rs[i].kind == EndTable || rs[i].kind == BeginParameters)
  }

  ghost predicate KthGroupAt(rs: seq<Record>, i: int, gs: seq<Group>, k: int) {
    0 <= k < |gs| && GroupAt(rs, i + |Rows(gs[..k])|, gs[k])
  }

  /** The records from i on are those of the groups, one after the other, and an end record. */
  ghost predicate GroupsAt(rs: seq<Record>, i: int, gs: seq<Group>) {
    EndAt(rs, i + |Rows(gs)|) && forall k :: 0 <= k < |gs| ==> KthGroupAt(rs, i, gs, k)
  }

  lemma {:induction false} RowsFirst(gs: seq<Group>)
    requires gs != []
    ensures |Rows(gs)| == 1 + |gs[0].ins| + |Rows(gs[1..])|
    decreases |gs|
  {
    var n := |gs| - 1;
    if n > 0 {
      RowsFirst(gs[..n]);
      assert gs[..n][1..] == gs[1..][..n - 1];
    }
  }

  lemma FirstInput(rs: seq<Record>, i: nat, ins: seq<Input>)
    requires i < |rs| && ins != []
    ensures InputsAt(rs, i, ins) <==>
      && InputRec(rs[i], ins[0], |ins| == 1) && (if rs[i].last then |ins| == 1 else InputsAt(rs, i + 1, ins[1..]))
  {
    hide InputRec;
    var rest := ins[1..];
    assert InputRec(rs[i], ins[0], true) ==> rs[i].last by { LastInput(rs[i], ins[0]); }
    assert InputRec(rs[i], ins[0], false) ==> !rs[i].last by { LastInput(rs[i], ins[0]); }
    assert forall j :: 0 <= j < |rest| ==> rest[j] == ins[j + 1];
    assert forall j :: 1 <= j < |ins| ==> ins[j] == rest[j - 1];
    if InputsAt(rs, i, ins) {
      assert InputRec(rs[i + 0], ins[0], |ins| == 1);
      forall j | 0 <= j < |rest| ensures InputRec(rs[i + 1 + j], rest[j], j == |rest| - 1) {
        assert InputRec(rs[i + (j + 1)], ins[j + 1], j + 1 == |ins| - 1);
      }
    }
    if InputRec(rs[i], ins[0], |ins| == 1) && !rs[i].last && InputsAt(rs, i + 1, rest) {
      forall j | 0 <= j < |ins| ensures InputRec(rs[i + j], ins[j], j == |ins| - 1) {
        if j > 0 {
          assert InputRec(rs[i + 1 + (j - 1)], rest[j - 1], j - 1 == |rest| - 1);
        }
      }
    }
  }

  lemma LastInput(r: Record, x: Input)
    ensures InputRec(r, x, true) ==> r.last
    ensures InputRec(r, x, false) ==> !r.last
  {
  }

  lemma ParseInputsStep(rs: seq<Record>, i: nat, ins: seq<Input>)
    requires i < |rs| && ins != []
    ensures ParseInputs(rs, i) == Some(ins) <==>
      && InputRec(rs[i], ins[0], |ins| == 1)
      && (if rs[i].last then |ins| == 1 else ParseInputs(rs, i + 1) == Some(ins[1..]))
  {
    assert ins == [ins[0]] + ins[1..];
    if GoodInput(rs[i]) && ParseInputs(rs, i + 1).Some? {
      var x := Input(rs[i].pid.value, rs[i].port, rs[i].cb.value);
      var rest := ParseInputs(rs, i + 1).value;
      assert ([x] + rest)[1..] == rest;
      SomeInputs(rs, i + 1);
    }
    assert |ins| == 1 ==> ins == [ins[0]];
  }

  lemma SomeInputs(rs: seq<Record>, i: nat)
    requires ParseInputs(rs, i).Some?
    ensures ParseInputs(rs, i).value != []
  {
  }

  lemma {:induction false} ParseInputsIff(rs: seq<Record>, i: nat, ins: seq<Input>)
    ensures ParseInputs(rs, i) == Some(ins) <==> InputsAt(rs, i, ins)
    decreases |rs| - i
  {
    if i < |rs| && ins != [] {
      hide InputsAt, InputRec, ParseInputs;
      ParseInputsStep(rs, i, ins);
      FirstInput(rs, i, ins);
      ParseInputsIff(rs, i + 1, ins[1..]);
    }
  }

  lemma FirstGroup(rs: seq<Record>, i: nat, gs: seq<Group>)
    requires gs != []
    ensures GroupsAt(rs, i, gs) <==> GroupAt(rs, i, gs[0]) && GroupsAt(rs, i + 1 + |gs[0].ins|, gs[1..])
  {
    hide GroupAt, KthGroupAt, EndAt, Rows;
    var rest, e := gs[1..], i + 1 + |gs[0].ins|;
    RowsFirst(gs);
    GroupZero(rs, i, gs);
    if GroupsAt(rs, i, gs) {
      forall k | 0 <= k < |rest| ensures KthGroupAt(rs, e, rest, k) {
        LaterGroup(rs, i, gs, k);
      }
    }
    if GroupAt(rs, i, gs[0]) && GroupsAt(rs, e, rest) {
      forall k | 0 <= k < |gs| ensures KthGroupAt(rs, i, gs, k) {
        if k > 0 {
          LaterGroup(rs, i, gs, k - 1);
        }
      }
    }
  }

  lemma GroupZero(rs: seq<Record>, i: nat, gs: seq<Group>)
    requires gs != []
    ensures KthGroupAt(rs, i, gs, 0) <==> GroupAt(rs, i, gs[0])
  {
    assert gs[..0] == [];
  }

  lemma LaterGroup(rs: seq<Record>, i: nat, gs: seq<Group>, k: nat)
    requires k + 1 < |gs|
    ensures KthGroupAt(rs, i, gs, k + 1) <==> KthGroupAt(rs, i + 1 + |gs[0].ins|, gs[1..], k)
  {
    RowsFirst(gs[..k + 1]);
    assert gs[..k + 1][1..] == gs[1..][..k];
  }

  lemma ParseStep(rs: seq<Record>, i: nat, gs: seq<Group>)
    requires gs != []
    ensures Parse(rs, i) == Some(gs) <==>
      && i < |rs| && rs[i].kind == OutputRecord && rs[i].pid == Some(gs[0].out.pid) && rs[i].port == gs[0].out.port
      && ParseInputs(rs, i + 1) == Some(gs[0].ins) && Parse(rs, i + 1 + |gs[0].ins|) == Some(gs[1..])
  {
    hide ParseInputs;
    assert gs == [gs[0]] + gs[1..];
    if i < |rs| && ParseInputs(rs, i + 1).Some? && rs[i].pid.Some? {
      var ins := ParseInputs(rs, i + 1).value;
      var rest := Parse(rs, i + 1 + |ins|);
      if rest.Some? {
        assert ([Group(OutPort(rs[i].pid.value, rs[i].port), ins)] + rest.value)[1..] == rest.value;
      }
    }
  }

  /** Parsing gives the groups exactly when the list consists of their records and an end record. */
  lemma {:induction false} ParseIff(rs: seq<Record>, i: nat, gs: seq<Group>)
    ensures Parse(rs, i) == Some(gs) <==> GroupsAt(rs, i, gs)
    decreases |gs|
  {
    if gs == [] {
      assert Rows(gs) == [];
    } else {
      hide Parse, ParseInputs, GroupsAt, InputsAt;
      ParseStep(rs, i, gs);
      FirstGroup(rs, i, gs);
      ParseInputsIff(rs, i + 1, gs[0].ins);
      ParseIff(rs, i + 1 + |gs[0].ins|, gs[1..]);
      InputsFit(rs, i + 1, gs[0].ins);
    }
  }

  lemma InputsFit(rs: seq<Record>, i: int, ins: seq<Input>)
    ensures InputsAt(rs, i, ins) ==> i + |ins| <= |rs| && 0 < |ins|
  {
  }

  lemma PatchedAppend(fids: map<OutPort, int>, gs: seq<Group>, g: Group)
    ensures Patched(fids, gs + [g]) == Patched(fids, gs)[g.out := |Rows(gs)|]
  {
  }

  /** The rows of a group are where its group id says, and the port's id is that of its last group. */
  lemma {:induction false} PatchedPort(fids: map<OutPort, int>, gs: seq<Group>, out: OutPort)
    ensures LastGroup(gs, out) == -1 ==>
              (out in Patched(fids, gs) <==> out in fids) && (out in fids ==> Patched(fids, gs)[out] == fids[out])
    ensures LastGroup(gs, out) >= 0 ==>
              && out in Patched(fids, gs)
              && Routed(Rows(gs), Patched(fids, gs)[out]) == Some(Entries(gs[LastGroup(gs, out)].ins))
              && 0 <= Patched(fids, gs)[out] < |Rows(gs)|
    decreases |gs|
  {
    if gs != [] {
      var n := |gs| - 1;
      var init, g := gs[..n], gs[n];
      PatchedPort(fids, init, out);
      var rows, es := Rows(init), Entries(g.ins);
      assert Rows(gs) == rows + ([Row(|g.ins|, 0)] + es);
      hide Rows, Routed;
      if g.out == out {
        RoutedGroup(rows, |g.ins|, es);
      } else if LastGroup(init, out) >= 0 {
        RoutedExtends(rows, [Row(|g.ins|, 0)] + es, Patched(fids, init)[out]);
      }
    }
  }

  lemma RoutedGroup(rows: seq<Row>, n: int, es: seq<Row>)
    requires n == |es|
    ensures Routed(rows + ([Row(n, 0)] + es), |rows|) == Some(es)
  {
    var table := rows + ([Row(n, 0)] + es);
    assert table[|rows|] == Row(n, 0);
    assert table[|rows| + 1..|rows| + 1 + n] == es;
  }

  lemma RoutedExtends(table: seq<Row>, more: seq<Row>, gid: int)
    requires Routed(table, gid).Some?
    ensures Routed(table + more, gid) == Routed(table, gid)
  {
    var n := table[gid].index;
    assert (table + more)[gid + 1..gid + 1 + n] == table[gid + 1..gid + 1 + n];
  }

  /** Unpacking gives back the element number and the port. */
  lemma Unpack(x: Input)
    ensures 0 <= Pack(x) < 128 && Pack(x) / 8 == x.pid % 16 && Pack(x) % 8 == x.port % 8
  {
  }

  /** The file from record i on, read after the groups gs. */
  ghost predicate Reading(rs: seq<Record>, i: nat, gs: seq<Group>) {
    Parse(rs, 0) == if Parse(rs, i).None? then None else Some(gs + Parse(rs, i).value)
  }

  ghost predicate ReadingInputs(rs: seq<Record>, start: nat, i: nat, ins: seq<Input>) {
    ParseInputs(rs, start) == if ParseInputs(rs, i).None? then None else Some(ins + ParseInputs(rs, i).value)
  }

  lemma InputStep(rs: seq<Record>, start: nat, i: nat, ins: seq<Input>)
    requires ReadingInputs(rs, start, i, ins)
    ensures i >= |rs| || !GoodInput(rs[i]) ==> ParseInputs(rs, start).None?
    ensures i < |rs| && GoodInput(rs[i]) ==>
              var more := ins + [Input(rs[i].pid.value, rs[i].port, rs[i].cb.value)];
              if rs[i].last then ParseInputs(rs, start) == Some(more) else ReadingInputs(rs, start, i + 1, more)
  {
    if i < |rs| && GoodInput(rs[i]) {
      var x := Input(rs[i].pid.value, rs[i].port, rs[i].cb.value);
      var rest := ParseInputs(rs, i + 1);
      assert rest.Some? ==> ins + ([x] + rest.value) == (ins + [x]) + rest.value;
    }
  }

  lemma {:induction false} GroupStep(rs: seq<Record>, i: nat, gs: seq<Group>)
    requires Reading(rs, i, gs) && i < |rs| && rs[i].kind == OutputRecord && rs[i].pid.Some?
    ensures ParseInputs(rs, i + 1).None? ==> Parse(rs, 0).None?
    ensures ParseInputs(rs, i + 1).Some? ==>
              var ins := ParseInputs(rs, i + 1).value;
              Reading(rs, i + 1 + |ins|, gs + [Group(OutPort(rs[i].pid.value, rs[i].port), ins)])
  {
    var ins := ParseInputs(rs, i + 1);
    if ins.Some? {
      var g := Group(OutPort(rs[i].pid.value, rs[i].port), ins.value);
      var rest := Parse(rs, i + 1 + |ins.value|);
      assert rest.Some? ==> gs + ([g] + rest.value) == (gs + [g]) + rest.value;
    }
  }

  class Router {
    /** The routing table in flash, row by row, and the patched function ids of the output ports. */
    const table: array<Row>
    var fids: map<OutPort, int>
    /** The wiring list that is installed. */
    ghost var groups: seq<Group>

    ghost predicate Installed()
      reads this, table
    {
      && |Rows(groups)| <= table.Length && |Rows(groups)| <= 255 && table[..|Rows(groups)|] == Rows(groups)
      && exists fids0 :: fids == Patched(fids0, groups)
    }

    constructor (rows: nat)
      ensures table.Length == rows && fids == map[] && fresh(table)
    {
      table := new Row[rows](_ => Row(0, 0));
      fids, groups := map[], [];
    }

    /** The inner loop of interpret_wiring_config: the input records of one output port. */
    method ReadInputs(rs: seq<Record>, start: nat) returns (r: Option<seq<Input>>)
      requires start <= |rs|
      ensures r == ParseInputs(rs, start)
      ensures r.Some? ==> start + |r.value| <= |rs|
    {
      hide ParseInputs;
      var i: nat, ins: seq<Input> := start, [];
      NothingRead(rs, start);
      while i < |rs|
        invariant start <= i <= |rs| && i == start + |ins| && ReadingInputs(rs, start, i, ins)
      {
        InputStep(rs, start, i, ins);
        if !GoodInput(rs[i]) {
          return None;
        }
        ins := ins + [Input(rs[i].pid.value, rs[i].port, rs[i].cb.value)];
        if rs[i].last {
          return Some(ins);
        }
        i := i + 1;
      }
      InputStep(rs, start, i, ins);
      return None;
    }

    /** The rows of one output port are written. */
    method WriteGroup(g: Group, offset: nat)
      requires offset + 1 + |g.ins| <= table.Length
      modifies table
      ensures table[..offset] == old(table[..offset])
      ensures table[offset..offset + 1 + |g.ins|] == [Row(|g.ins|, 0)] + Entries(g.ins)
    {
      hide Entries, Pack;
      table[offset] := Row(|g.ins|, 0);
      var i := 0;
      while i < |g.ins|
        invariant 0 <= i <= |g.ins| && table[..offset] == old(table[..offset]) && table[offset] == Row(|g.ins|, 0)
        invariant forall k :: 0 <= k < i ==> table[offset + 1 + k] == Row(Pack(g.ins[k]), g.ins[k].cb)
      {
        table[offset + 1 + i] := Row(Pack(g.ins[i]), g.ins[i].cb);
        i := i + 1;
      }
    }

    /** interpret_wiring_config for a list of at most 255 rows that fit the table. */
    method Interpret(rs: seq<Record>) returns (ok: bool)
      requires |rs| <= 256 && |rs| <= table.Length + 1
      modifies this, table
      ensures ok <==> Parse(rs, 0).Some?
      ensures ok ==> groups == Parse(rs, 0).value && fids == Patched(old(fids), groups) && Installed()
    {
      hide Parse, ParseInputs, Rows, Patched, Entries;
      groups := [];
      var i: nat := 0;
      ghost var fids0 := fids;
      NothingInstalled(rs, fids0);
      while i < |rs|
        invariant 0 <= i <= |rs| && i == |Rows(groups)| && Reading(rs, i, groups)
        invariant i <= table.Length + 1 && (i < |rs| ==> table[..i] == Rows(groups)) && fids == Patched(fids0, groups)
      {
        var u := rs[i];
        ListEnds(rs, i, groups);
        if u.kind == EndTable || u.kind == BeginParameters {
          return true;
        }
        if u.kind != OutputRecord || u.pid.None? {
          return false;
        }
        var out := OutPort(u.pid.value, u.port);
        fids := fids[out := i];
        GroupStep(rs, i, groups);
        var ins := ReadInputs(rs, i + 1);
        if ins.None? {
          return false;
        }
        var g := Group(out, ins.value);
        RowsAppend(groups, g);
        PatchedAppend(fids0, groups, g);
        if i + 1 + |g.ins| == |rs| {
          Unterminated(rs, |rs|, groups + [g]);
          return false;
        }
        WriteGroup(g, i);
        assert table[..i + 1 + |g.ins|] == table[..i] + table[i..i + 1 + |g.ins|];
        groups := groups + [g];
        i := i + 1 + |g.ins|;
      }
      Unterminated(rs, i, groups);
      return false;
    }

    /** The loop of dispatch over the input ports of an output port. */
    method Dispatch(gid: int) returns (visits: seq<Visit>)
      requires 0 <= gid < 256 && (gid != INVALID_GID ==> Routed(table[..], gid).Some?)
      ensures gid == INVALID_GID ==> visits == []
      ensures gid != INVALID_GID ==>
        var rows := Routed(table[..], gid).value;
        && |visits| == |rows|
        && forall k :: 0 <= k < |rows| ==> visits[k] == Visit(rows[k].index / 8, rows[k].index % 8, rows[k].cb)
    {
      visits := [];
      if gid == INVALID_GID {
        return;
      }
      var n, i := table[gid].index, 1;
      while i <= n
        invariant 1 <= i <= n + 1 && |visits| == i - 1
        invariant forall k :: 0 <= k < i - 1 ==>
                    var row := table[gid + 1 + k];
                    visits[k] == Visit(row.index / 8, row.index % 8, row.cb)
      {
        var port := table[gid + i];
        visits := visits + [Visit(port.index / 8, port.index % 8, port.cb)];
        i := i + 1;
      }
    }

    /**
      Dispatching through the table is direct interpretation of the wiring list: a token on a configured
      output port visits exactly the input ports of its last group, in order.
     */
    method DispatchPort(out: OutPort) returns (visits: seq<Visit>)
      requires Installed() && LastGroup(groups, out) >= 0
      ensures visits == Direct(groups[LastGroup(groups, out)].ins)
    {
      hide Rows, Patched, LastGroup, Pack;
      ghost var fids0 :| fids == Patched(fids0, groups);
      PatchedPort(fids0, groups, out);
      ghost var ins := groups[LastGroup(groups, out)].ins;
      var gid := fids[out];
      assert table[..] == Rows(groups) + table[|Rows(groups)|..];
      RoutedExtends(Rows(groups), table[|Rows(groups)|..], gid);
      visits := Dispatch(gid);
      forall k | 0 <= k < |ins|
        ensures visits[k] == Direct(ins)[k]
      {
        Unpack(ins[k]);
      }
    }
  }

  lemma NothingRead(rs: seq<Record>, start: nat)
    ensures ReadingInputs(rs, start, start, [])
  {
    var r := ParseInputs(rs, start);
    assert r.Some? ==> [] + r.value == r.value;
  }

  lemma NothingInstalled(rs: seq<Record>, fids: map<OutPort, int>)
    ensures Reading(rs, 0, []) && Rows([]) == [] && Patched(fids, []) == fids
  {
    var r := Parse(rs, 0);
    assert r.Some? ==> [] + r.value == r.value;
  }

  lemma ListEnds(rs: seq<Record>, i: nat, gs: seq<Group>)
    requires Reading(rs, i, gs) && i < |rs|
    ensures rs[i].kind == EndTable || rs[i].kind == BeginParameters ==> Parse(rs, 0) == Some(gs)
    ensures !EndAt(rs, i) && (rs[i].kind != OutputRecord || rs[i].pid.None?) ==>
              Parse(rs, 0).None?
  {
    assert gs + [] == gs;
  }

  lemma Unterminated(rs: seq<Record>, i: nat, gs: seq<Group>)
    requires Reading(rs, i, gs) && i >= |rs|
    ensures Parse(rs, 0).None?
  {
  }
}
