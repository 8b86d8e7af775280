/** src/debug.c: emit_debug_line, and the state machine of section 6.2 of DWARF 4 that runs its output. */
module LineProgram {
  import opened Bytes
  import Words

  const TWO64: nat := 0x1_0000_0000_0000_0000

  // ---------- The consumer ----------

  datatype Row = Row(address: nat, file: nat, line: int, column: nat, prologueEnd: bool, endSequence: bool)

  // The registers, which are the row to come; it starts a sequence at file 1, line 1.
  const START: Row := Row(0, 1, 1, 0, false, false)

  function Advance(s: Row, delta: nat): Row { s.(address := (s.address + delta) % TWO64) }

  function Prefix(rows: seq<Row>, rest: Option<seq<Row>>): Option<seq<Row>> {
    match rest
    case None => None
    case Some(more) => Some(rows + more)
  }

  // The rows that the program b appends, from registers s on; None for an opcode this machine lacks.
  function Run(b: seq<byte>, s: Row): Option<seq<Row>>
    decreases |b|
  {
    if b == [] then Some([])
    else if b[0] == 0 then RunExtended(b[1..], s)
    else if b[0] == 1 then Prefix([s], Run(b[1..], s.(prologueEnd := false)))
    else if b[0] == 2 then
      match ReadUleb(b[1..]) {
        case None => None
        case Some((v, rest)) => Shorter(b[1..]); Run(rest, Advance(s, v))
      }
    else if b[0] == 3 then
      match ReadSleb(b[1..]) {
        case None => None
        case Some((v, rest)) => Shorter(b[1..]); Run(rest, s.(line := s.line + v))
      }
    else if b[0] == 4 then
      match ReadUleb(b[1..]) {
        case None => None
        case Some((v, rest)) => Shorter(b[1..]); Run(rest, s.(file := v))
      }
    else if b[0] == 5 then
      match ReadUleb(b[1..]) {
        case None => None
        case Some((v, rest)) => Shorter(b[1..]); Run(rest, s.(column := v))
      }
    else if b[0] == 10 then Run(b[1..], s.(prologueEnd := true))
    else None
  }

  // The two extended opcodes, behind their length and code.
  function RunExtended(b: seq<byte>, s: Row): Option<seq<Row>>
    decreases |b|
  {
    match ReadUleb(b)
    case None => None
    case Some((n, rest)) =>
      Shorter(b);
      if n == 0 || |rest| < n then None
      else if rest[0] == 1 && n == 1 then Prefix([s.(endSequence := true)], Run(rest[1..], START))
      else if rest[0] == 2 && n == 9 then Run(rest[9..], s.(address := FromLittle(rest[1..9])))
      else None
  }

  lemma Shorter(b: seq<byte>)
    ensures ReadUleb(b).Some? ==> |ReadUleb(b).value.1| < |b|
    ensures ReadSleb(b).Some? ==> |ReadSleb(b).value.1| < |b|
  {
  }

  // ---------- Chunks of a program ----------

  // The bytes c take the machine from s to t, appending the rows on the way, whatever follows.
  ghost predicate Moves(c: seq<byte>, s: Row, rows: seq<Row>, t: Row) {
    forall rest: seq<byte> :: Run(c + rest, s) == Prefix(rows, Run(rest, t))
  }

  lemma MovesNot(s: Row)
    ensures Moves([], s, [], s)
  {
    forall rest: seq<byte> ensures Run([] + rest, s) == Prefix([], Run(rest, s)) {
      assert [] + rest == rest;
      NoRows(Run(rest, s));
    }
  }

  lemma NoRows(r: Option<seq<Row>>)
    ensures Prefix([], r) == r
  {
    if r.Some? {
      assert [] + r.value == r.value;
    }
  }

  lemma MovesThen(c: seq<byte>, s: Row, rows: seq<Row>, t: Row, d: seq<byte>, more: seq<Row>, u: Row)
    requires Moves(c, s, rows, t) && Moves(d, t, more, u)
    ensures Moves(c + d, s, rows + more, u)
  {
    hide Run;
    forall rest: seq<byte> ensures Run(c + d + rest, s) == Prefix(rows + more, Run(rest, u)) {
      assert c + d + rest == c + (d + rest);
      assert Run(d + rest, t) == Prefix(more, Run(rest, u));
      if Run(rest, u).Some? {
        assert rows + (more + Run(rest, u).value) == rows + more + Run(rest, u).value;
      }
    }
  }

  // A chunk without rows.
  lemma StepMoves(c: seq<byte>, s: Row, t: Row)
    requires forall rest: seq<byte> :: Run(c + rest, s) == Run(rest, t)
    ensures Moves(c, s, [], t)
  {
    hide Run;
    forall rest: seq<byte> ensures Run(c + rest, s) == Prefix([], Run(rest, t)) {
      NoRows(Run(rest, t));
    }
  }

  lemma CopyMoves(s: Row)
    ensures Moves([1], s, [s], s.(prologueEnd := false))
  {
    forall rest: seq<byte> ensures Run([1] + rest, s) == Prefix([s], Run(rest, s.(prologueEnd := false))) {
      assert ([1] + rest)[1..] == rest;
    }
  }

  lemma PrologueMoves(s: Row)
    ensures Moves([10], s, [], s.(prologueEnd := true))
  {
    forall rest: seq<byte> ensures Run([10] + rest, s) == Run(rest, s.(prologueEnd := true)) {
      assert ([10] + rest)[1..] == rest;
    }
    StepMoves([10], s, s.(prologueEnd := true));
  }

  // Standard opcodes with an unsigned operand: advance_pc, set_file and set_column.
  function Operate(op: byte, s: Row, v: nat): Row {
    if op == 2 then Advance(s, v) else if op == 4 then s.(file := v) else s.(column := v)
  }

  lemma OperandMoves(op: byte, s: Row, v: nat)
    requires op == 2 || op == 4 || op == 5
    ensures Moves([op] + Uleb(v), s, [], Operate(op, s, v))
  {
    forall rest: seq<byte> ensures Run([op] + Uleb(v) + rest, s) == Run(rest, Operate(op, s, v)) {
      assert ([op] + Uleb(v) + rest)[1..] == Uleb(v) + rest;
      UlebRoundTrip(v, rest);
    }
    StepMoves([op] + Uleb(v), s, Operate(op, s, v));
  }

  lemma AdvanceLineMoves(s: Row, v: int)
    ensures Moves([3] + Sleb(v), s, [], s.(line := s.line + v))
  {
    forall rest: seq<byte> ensures Run([3] + Sleb(v) + rest, s) == Run(rest, s.(line := s.line + v)) {
      assert ([3] + Sleb(v) + rest)[1..] == Sleb(v) + rest;
      SlebRoundTrip(v, rest);
    }
    StepMoves([3] + Sleb(v), s, s.(line := s.line + v));
  }

  lemma SetAddressMoves(s: Row, address: nat)
    requires address < TWO64
    ensures Moves([0] + Uleb(9) + [2] + Little(address, 8), s, [], s.(address := address))
  {
    hide Uleb, Little, FromLittle, Run, ReadUleb;
    var c := [0] + Uleb(9) + [2] + Little(address, 8);
    LittleRoundTrip(address, 8);
    EightBytes();
    Words.DivModUnique(address, TWO64, 0, address);
    forall rest: seq<byte> ensures Run(c + rest, s) == Run(rest, s.(address := address)) {
      ghost var tail := [2] + Little(address, 8) + rest;
      assert (c + rest)[1..] == Uleb(9) + tail;
      UlebRoundTrip(9, tail);
      assert tail[1..9] == Little(address, 8) && tail[9..] == rest;
      RunsSetAddress(c + rest, tail, s);
    }
    StepMoves(c, s, s.(address := address));
  }

  lemma RunsSetAddress(b: seq<byte>, tail: seq<byte>, s: Row)
    requires |b| > 0 && b[0] == 0 && ReadUleb(b[1..]) == Some((9, tail)) && |tail| >= 9 && tail[0] == 2
    ensures Run(b, s) == Run(tail[9..], s.(address := FromLittle(tail[1..9])))
  {
  }

  lemma EightBytes()
    ensures Power256(8) == TWO64
  {
    assert Power256(4) == 0x1_0000_0000;
    assert Power256(8) == 256 * (256 * (256 * (256 * Power256(4))));
  }

  lemma EndSequenceMoves(s: Row)
    ensures Moves([0] + Uleb(1) + [1], s, [s.(endSequence := true)], START)
  {
    var c := [0] + Uleb(1) + [1];
    forall rest: seq<byte> ensures Run(c + rest, s) == Prefix([s.(endSequence := true)], Run(rest, START)) {
      assert (c + rest)[1..] == Uleb(1) + ([1] + rest);
      UlebRoundTrip(1, [1] + rest);
      assert ([1] + rest)[1..] == rest;
    }
  }

  // ---------- The producer ----------

  // DebugLineEntry, and the fields of DebugFunc that the line table looks at
  datatype Entry = Entry(file: seq<byte>, line: int, col: int, pc: nat)

  datatype Func = Func(start: nat, end: nat, prologueEnd: nat)

  // The first address past the prologue of a function that is not empty.
  predicate AtPrologueEnd(funcs: seq<Func>, pc: nat) {
    exists k :: 0 <= k < |funcs| && funcs[k].prologueEnd == pc && funcs[k].end > funcs[k].start
  }

  predicate Contains(files: seq<seq<byte>>, name: seq<byte>) {
    exists j :: 0 <= j < |files| && files[j] == name
  }

  // The index of a file name, counted from 1; 1 for an unknown one.
  method FileIndex(files: seq<seq<byte>>, name: seq<byte>) returns (index: nat)
    ensures index >= 1 && (Contains(files, name) ==> index <= |files| && files[index - 1] == name)
  {
    index := 1;
    var j := 0;
    while j < |files|
      invariant 0 <= j <= |files| && index == 1 && forall i :: 0 <= i < j ==> files[i] != name
    {
      if files[j] == name {
        return j + 1;
      }
      j := j + 1;
    }
  }

  method Known(files: seq<seq<byte>>, name: seq<byte>) returns (found: bool)
    ensures found == Contains(files, name)
  {
    found := false;
    var j := 0;
    while j < |files|
      invariant 0 <= j <= |files| && !found && forall i :: 0 <= i < j ==> files[i] != name
    {
      if files[j] == name {
        return true;
      }
      j := j + 1;
    }
  }

  const UNKNOWN: seq<byte> := [117, 110, 107, 110, 111, 119, 110, 46, 99]

  // The file table: every file of a line, and the translation unit, once each.
  method FileTable(lines: seq<Entry>, unit: Option<seq<byte>>) returns (files: seq<seq<byte>>)
    ensures |files| > 0 && forall i, j :: 0 <= i < j < |files| ==> files[i] != files[j]
    ensures forall i :: 0 <= i < |lines| ==> Contains(files, lines[i].file)
    ensures unit.Some? ==> Contains(files, unit.value)
  {
    files := [];
    var i := 0;
    while i < |lines|
      invariant 0 <= i <= |lines| && (i > 0 ==> |files| > 0)
      invariant forall k :: 0 <= k < i ==> Contains(files, lines[k].file)
      invariant forall k, j :: 0 <= k < j < |files| ==> files[k] != files[j]
    {
      files := AddFile(files, lines[i].file);
      i := i + 1;
    }
    if unit.Some? {
      files := AddFile(files, unit.value);
    }
    if |files| == 0 {
      files := [UNKNOWN];
    }
  }

  method AddFile(files: seq<seq<byte>>, name: seq<byte>) returns (files': seq<seq<byte>>)
    requires forall i, j :: 0 <= i < j < |files| ==> files[i] != files[j]
    ensures |files'| > 0 && forall i, j :: 0 <= i < j < |files'| ==> files'[i] != files'[j]
    ensures Contains(files', name) && forall other :: Contains(files, other) ==> Contains(files', other)
  {
    files' := files;
    var found := Known(files, name);
    if !found {
      files' := files + [name];
      assert files'[|files|] == name;
      forall other | Contains(files, other) ensures Contains(files', other) {
        var j :| 0 <= j < |files| && files[j] == other;
        assert files'[j] == other;
      }
    }
  }

  // The row that stands for a line entry, in a column that it may have from an earlier entry.
  ghost predicate Describes(row: Row, e: Entry, column: nat, files: seq<seq<byte>>, funcs: seq<Func>, base: nat) {
    && row.address == (base + e.pc) % TWO64 && row.line == e.line && !row.endSequence
    && (Contains(files, e.file) ==> 1 <= row.file <= |files| && files[row.file - 1] == e.file)
    && row.column == column
    && (row.prologueEnd <==> AtPrologueEnd(funcs, e.pc))
  }

  // The last positive column of the first n entries, or 0.
  function ColumnAfter(lines: seq<Entry>, n: nat): nat
    requires n <= |lines|
  {
    if n == 0 then 0 else if lines[n - 1].col > 0 then lines[n - 1].col else ColumnAfter(lines, n - 1)
  }

  method MarksPrologue(funcs: seq<Func>, pc: nat) returns (found: bool)
    ensures found == AtPrologueEnd(funcs, pc)
  {
    found := false;
    var k := 0;
    while k < |funcs|
      invariant 0 <= k <= |funcs| && !found
      invariant forall i :: 0 <= i < k ==> !(funcs[i].prologueEnd == pc && funcs[i].end > funcs[i].start)
    {
      if funcs[k].prologueEnd == pc && funcs[k].end > funcs[k].start {
        return true;
      }
      k := k + 1;
    }
  }

  // The bytes of a program under construction, with the machine that has run them. The code's cur_addr,
  // cur_file and cur_line are the machine's registers, but for the address before it was first set.
  class Program {
    var prog: Buffer
    ghost var rows: seq<Row>
    ghost var state: Row

    ghost predicate Valid()
      reads this, prog
    {
      Moves(prog.data, START, rows, state)
    }

    constructor ()
      ensures Valid() && fresh(prog) && rows == [] && state == START
    {
      prog := new Buffer();
      rows, state := [], START;
      new;
      MovesNot(START);
    }

    ghost method Step(was: seq<byte>, c: seq<byte>, more: seq<Row>, t: Row)
      requires Moves(was, START, rows, state) && prog.data == was + c && Moves(c, state, more, t)
      modifies this`rows, this`state
      ensures Valid() && rows == old(rows) + more && state == t
    {
      MovesThen(was, START, rows, state, c, more, t);
      rows, state := rows + more, t;
    }

    method SetAddress(address: nat)
      requires Valid() && address < TWO64
      modifies this`rows, this`state, prog
      ensures Valid() && rows == old(rows) && state == old(state).(address := address)
    {
      hide Moves;
      SetAddressMoves(state, address);
      ghost var was := prog.data;
      prog.U8(0);
      prog.UnsignedLeb(9);
      prog.U8(2);
      prog.Unsigned(address, 8);
      Step(was, [0] + Uleb(9) + [2] + Little(address, 8), [], state.(address := address));
    }

    // One of the standard opcodes advance_pc, set_file and set_column.
    method Operand(op: byte, v: nat)
      requires Valid() && (op == 2 || op == 4 || op == 5)
      modifies this`rows, this`state, prog
      ensures Valid() && rows == old(rows) && state == Operate(op, old(state), v)
    {
      hide Moves;
      OperandMoves(op, state, v);
      ghost var was := prog.data;
      prog.U8(op);
      prog.UnsignedLeb(v);
      Step(was, [op] + Uleb(v), [], Operate(op, state, v));
    }

    method AdvanceLine(v: int)
      requires Valid()
      modifies this`rows, this`state, prog
      ensures Valid() && rows == old(rows) && state == old(state).(line := old(state).line + v)
    {
      hide Moves;
      AdvanceLineMoves(state, v);
      ghost var was := prog.data;
      prog.U8(3);
      prog.SignedLeb(v);
      Step(was, [3] + Sleb(v), [], state.(line := state.line + v));
    }

    method SetPrologueEnd()
      requires Valid()
      modifies this`rows, this`state, prog
      ensures Valid() && rows == old(rows) && state == old(state).(prologueEnd := true)
    {
      hide Moves;
      PrologueMoves(state);
      ghost var was := prog.data;
      prog.U8(10);
      Step(was, [10], [], state.(prologueEnd := true));
    }

    method Copy()
      requires Valid()
      modifies this`rows, this`state, prog
      ensures Valid() && rows == old(rows) + [old(state)] && state == old(state).(prologueEnd := false)
    {
      hide Moves;
      CopyMoves(state);
      ghost var was := prog.data;
      prog.U8(1);
      Step(was, [1], [state], state.(prologueEnd := false));
    }

    method EndSequence()
      requires Valid()
      modifies this`rows, this`state, prog
      ensures Valid() && rows == old(rows) + [old(state).(endSequence := true)] && state == START
    {
      hide Moves;
      EndSequenceMoves(state);
      ghost var was := prog.data;
      prog.U8(0);
      prog.UnsignedLeb(1);
      prog.U8(1);
      Step(was, [0] + Uleb(1) + [1], [state.(endSequence := true)], START);
    }
  }

  // The registers that the code keeps in step with the machine, once an address has been set.
  ghost predicate InStep(s: Row, curAddr: nat, curFile: nat, curLine: int, haveAddr: bool) {
    && s.file == curFile && s.line == curLine && !s.prologueEnd && !s.endSequence && curAddr < TWO64
    && (haveAddr ==> s.address == curAddr) && (!haveAddr ==> s == START)
  }

  // Moving to an address: anew when none is set or it lies behind, by the difference otherwise.
  method MoveTo(p: Program, address: nat, curAddr: nat, haveAddr: bool)
    requires p.Valid() && address < TWO64 && curAddr < TWO64 && (haveAddr ==> p.state.address == curAddr)
    modifies p`rows, p`state, p.prog
    ensures p.Valid() && p.rows == old(p.rows) && p.state == old(p.state).(address := address)
  {
    if !haveAddr || address < curAddr {
      p.SetAddress(address);
    } else if address > curAddr {
      Words.DivModUnique(address, TWO64, 0, address);
      p.Operand(2, address - curAddr);
    }
  }

  // The opcodes for one line entry.
  method EmitLine(p: Program, e: Entry, files: seq<seq<byte>>, funcs: seq<Func>, base: nat,
                  curAddr: nat, curFile: nat, curLine: int, haveAddr: bool)
    returns (addr: nat, file: nat, ghost row: Row)
    requires p.Valid() && InStep(p.state, curAddr, curFile, curLine, haveAddr)
    modifies p`rows, p`state, p.prog
    ensures p.Valid() && InStep(p.state, addr, file, e.line, true) && addr == (base + e.pc) % TWO64
    ensures p.state.column == if e.col > 0 then e.col else old(p.state).column
    ensures p.rows == old(p.rows) + [row] && Describes(row, e, p.state.column, files, funcs, base)
  {
    addr := (base + e.pc) % TWO64;
    file := FileIndex(files, e.file);
    MoveTo(p, addr, curAddr, haveAddr);
    if file != curFile {
      p.Operand(4, file);
    }
    if e.line != curLine {
      p.AdvanceLine(e.line - curLine);
    }
    if e.col > 0 {
      p.Operand(5, e.col);
    }
    var marks := MarksPrologue(funcs, e.pc);
    if marks {
      p.SetPrologueEnd();
    }
    row := p.state;
    p.Copy();
  }

  function MaxEnd(funcs: seq<Func>): nat {
    if funcs == [] then 0
    else var m := MaxEnd(funcs[..|funcs| - 1]); if funcs[|funcs| - 1].end > m then funcs[|funcs| - 1].end else m
  }

  method LargestEnd(funcs: seq<Func>) returns (m: nat)
    ensures m == MaxEnd(funcs)
  {
    m := 0;
    var i := 0;
    while i < |funcs|
      invariant 0 <= i <= |funcs| && m == MaxEnd(funcs[..i])
    {
      assert funcs[..i + 1][..i] == funcs[..i];
      if funcs[i].end > m {
        m := funcs[i].end;
      }
      i := i + 1;
    }
    assert funcs[..i] == funcs;
  }

  // Where the sequence ends: past the functions, if that is past the last line.
  function EndAddress(last: nat, funcs: seq<Func>, base: nat): nat {
    var end := (base + MaxEnd(funcs)) % TWO64;
    if funcs != [] && end > last then end else last
  }

  function SequenceEnd(lines: seq<Entry>, funcs: seq<Func>, base: nat): nat {
    EndAddress(if lines == [] then base else (base + lines[|lines| - 1].pc) % TWO64, funcs, base)
  }

  // The rows that running the program appends: one for each line, in order, and the end of the sequence.
  // The code counts the end from the base when no line set an address, while the machine counts from 0.
  ghost predicate Faithful(rows: seq<Row>, lines: seq<Entry>, files: seq<seq<byte>>, funcs: seq<Func>, base: nat)
    requires base < TWO64
  {
    && |rows| == |lines| + 1
    && (forall i :: 0 <= i < |lines| ==> Describes(rows[i], lines[i], ColumnAfter(lines, i + 1), files, funcs, base))
    && rows[|lines|].endSequence && rows[|lines|].column == ColumnAfter(lines, |lines|) && !rows[|lines|].prologueEnd
    && rows[|lines|].line == (if lines == [] then 1 else lines[|lines| - 1].line)
    && rows[|lines|].address == SequenceEnd(lines, funcs, base) - (if lines == [] then base else 0)
  }

  // The sequence ends where it should exactly when some line set an address or the text begins at 0.
  lemma EndsRight(rows: seq<Row>, lines: seq<Entry>, files: seq<seq<byte>>, funcs: seq<Func>, base: nat)
    requires base < TWO64 && Faithful(rows, lines, files, funcs, base)
    ensures rows[|lines|].address == SequenceEnd(lines, funcs, base) <==> lines != [] || base == 0
  {
    hide MaxEnd, Describes, ColumnAfter;
  }

  // MaxEnd is the end of some function, and none ends behind it.
  lemma {:induction false} MaxEndIsLargest(funcs: seq<Func>)
    ensures forall k :: 0 <= k < |funcs| ==> funcs[k].end <= MaxEnd(funcs)
    ensures funcs != [] ==> exists k :: 0 <= k < |funcs| && funcs[k].end == MaxEnd(funcs)
  {
    if funcs != [] {
      var init, n := funcs[..|funcs| - 1], |funcs| - 1;
      MaxEndIsLargest(init);
      assert funcs[n].end <= MaxEnd(funcs) && MaxEnd(init) <= MaxEnd(funcs);
      if init != [] && MaxEnd(funcs) == MaxEnd(init) {
        var k :| 0 <= k < |init| && init[k].end == MaxEnd(init);
        assert funcs[k].end == MaxEnd(funcs);
      } else {
        assert funcs[n].end == MaxEnd(funcs);
      }
      assert forall k :: 0 <= k < n ==> funcs[k] == init[k];
    }
  }

  // The end row lies behind the last line and behind every function, and no further: its address is that of
  // the last line or the end of a function.  Without lines the text base takes the place of the last line,
  // and the address is short of the base.
  lemma EndRowIsLast(rows: seq<Row>, lines: seq<Entry>, files: seq<seq<byte>>, funcs: seq<Func>, base: nat)
    requires base < TWO64 && Faithful(rows, lines, files, funcs, base)
    requires forall k :: 0 <= k < |funcs| ==> base + funcs[k].end < TWO64
    ensures var end := rows[|lines|].address + (if lines == [] then base else 0);
            var last := if lines == [] then base else (base + lines[|lines| - 1].pc) % TWO64;
            && end >= last && (forall k :: 0 <= k < |funcs| ==> end >= base + funcs[k].end)
            && (end == last || exists k :: 0 <= k < |funcs| && end == base + funcs[k].end)
  {
    hide MaxEnd, Describes, ColumnAfter;
    MaxEndIsLargest(funcs);
    if funcs != [] {
      var k :| 0 <= k < |funcs| && funcs[k].end == MaxEnd(funcs);
      Words.DivModUnique(base + MaxEnd(funcs), TWO64, 0, base + MaxEnd(funcs));
    }
  }

  // A function of 16 bytes without a line, in a text at 0x400000: the program that a table without lines
  // has ends its sequence at 16.
  lemma EndsTooLow()
    ensures var funcs, base, end := [Func(0, 16, 4)], 0x40_0000, Row(16, 1, 1, 0, false, true);
            && Run([2, 16, 0, 1, 1], START) == Some([end])
            && Faithful([end], [], [UNKNOWN], funcs, base) && SequenceEnd([], funcs, base) == 0x40_0010
  {
    hide Run, Moves;
    EndMoves();
    RunsAll([2, 16, 0, 1, 1], [Row(16, 1, 1, 0, false, true)], START);
    assert [Func(0, 16, 4)][..0] == [];
  }

  // The loop of emit_debug_line over the entries and what follows it.
  method EmitProgram(lines: seq<Entry>, files: seq<seq<byte>>, funcs: seq<Func>, base: nat)
    returns (code: seq<byte>, ghost rows: seq<Row>)
    requires base < TWO64
    ensures Run(code, START) == Some(rows) && Faithful(rows, lines, files, funcs, base)
  {
    hide Moves, Describes, Run, MaxEnd, EndAddress;
    var p := new Program();
    var curAddr, curFile, curLine, haveAddr := base, 1, 1, false;
    var i := 0;
    while i < |lines|
      invariant 0 <= i <= |lines| && fresh(p) && fresh(p.prog) && p.Valid()
      invariant InStep(p.state, curAddr, curFile, curLine, haveAddr) && haveAddr == (i > 0)
      invariant |p.rows| == i && p.state.column == ColumnAfter(lines, i)
      invariant forall k :: 0 <= k < i ==>
                  Describes(p.rows[k], lines[k], ColumnAfter(lines, k + 1), files, funcs, base)
      invariant curAddr == if i > 0 then (base + lines[i - 1].pc) % TWO64 else base
      invariant curLine == if i > 0 then lines[i - 1].line else 1
    {
      ghost var row;
      curAddr, curFile, row := EmitLine(p, lines[i], files, funcs, base, curAddr, curFile, curLine, haveAddr);
      curLine, haveAddr := lines[i].line, true;
      i := i + 1;
    }
    FinishProgram(p, funcs, base, curAddr);
    code, rows := p.prog.data, p.rows;
    RunsAll(code, rows, p.state);
  }

  method FinishProgram(p: Program, funcs: seq<Func>, base: nat, curAddr: nat)
    requires p.Valid() && curAddr < TWO64 && base < TWO64
    requires p.state.address == curAddr || (p.state.address == 0 && curAddr == base)
    requires !p.state.prologueEnd
    modifies p`rows, p`state, p.prog
    ensures p.Valid() && |p.rows| == |old(p.rows)| + 1 && p.rows[..|old(p.rows)|] == old(p.rows)
    ensures var row := p.rows[|old(p.rows)|];
            && row.address == old(p.state).address + (EndAddress(curAddr, funcs, base) - curAddr)
            && row == old(p.state).(address := row.address, endSequence := true)
  {
    hide Moves, MaxEnd;
    if |funcs| > 0 {
      var maxEnd := LargestEnd(funcs);
      var end := (base + maxEnd) % TWO64;
      if end > curAddr {
        Words.DivModUnique(p.state.address + (end - curAddr), TWO64, 0, p.state.address + (end - curAddr));
        p.Operand(2, end - curAddr);
      }
    }
    p.EndSequence();
  }

  lemma EndMoves()
    ensures Moves([2, 16, 0, 1, 1], START, [Row(16, 1, 1, 0, false, true)], START)
  {
    hide Moves;
    OperandMoves(2, START, 16);
    var s := START.(address := 16);
    EndSequenceMoves(s);
    OneByte(16);
    OneByte(1);
    MovesThen([2] + Uleb(16), START, [], s, [0] + Uleb(1) + [1], [s.(endSequence := true)], START);
    assert [2] + Uleb(16) + ([0] + Uleb(1) + [1]) == [2, 16, 0, 1, 1];
    assert [] + [s.(endSequence := true)] == [Row(16, 1, 1, 0, false, true)];
  }

  lemma OneByte(v: nat)
    requires v < 128
    ensures Uleb(v) == [v as byte]
  {
  }

  lemma RunsAll(code: seq<byte>, rows: seq<Row>, s: Row)
    requires Moves(code, START, rows, s)
    ensures Run(code, START) == Some(rows)
  {
    assert code + [] == code;
    assert Run([], s) == Some([]);
    assert rows + [] == rows;
    assert Run(code + [], START) == Prefix(rows, Run([], s));
  }

  // Every opcode once: a row at 0x1234, file 2, line 6, column 7, at the end of a prologue, and the end row
  // 4 bytes on.
  lemma SampleProgram()
    ensures Run([0, 9, 2, 0x34, 0x12, 0, 0, 0, 0, 0, 0, 4, 2, 3, 5, 5, 7] + [10, 1, 2, 4, 0, 1, 1], START)
            == Some([Row(0x1234, 2, 6, 7, true, false), Row(0x1238, 2, 6, 7, false, true)])
  {
    hide Moves, Run;
    var head: seq<byte> := [0, 9, 2, 0x34, 0x12, 0, 0, 0, 0, 0, 0, 4, 2, 3, 5, 5, 7];
    var rows := [Row(0x1234, 2, 6, 7, true, false), Row(0x1238, 2, 6, 7, false, true)];
    SampleHead();
    SampleTail();
    MovesThen(head, START, [], Row(0x1234, 2, 6, 7, false, false), [10, 1, 2, 4, 0, 1, 1], rows, START);
    assert [] + rows == rows;
    RunsAll(head + [10, 1, 2, 4, 0, 1, 1], rows, START);
  }

  lemma SampleHead()
    ensures Moves([0, 9, 2, 0x34, 0x12, 0, 0, 0, 0, 0, 0, 4, 2, 3, 5, 5, 7], START, [], Row(0x1234, 2, 6, 7, false, false))
  {
    hide Moves, Run, Uleb, Sleb, Little;
    var s0 := START.(address := 0x1234);
    var s1, s2 := s0.(file := 2), s0.(file := 2, line := 6);
    SampleBytes();
    SetAddressMoves(START, 0x1234);
    OperandMoves(4, s0, 2);
    AdvanceLineMoves(s1, 5);
    OperandMoves(5, s2, 7);
    var c0: seq<byte> := [0, 9, 2, 0x34, 0x12, 0, 0, 0, 0, 0, 0];
    Silent(c0, START, s0, [4, 2], s1);
    Silent(c0 + [4, 2], START, s1, [3, 5], s2);
    Silent(c0 + [4, 2] + [3, 5], START, s2, [5, 7], s2.(column := 7));
    assert c0 + [4, 2] + [3, 5] + [5, 7] == [0, 9, 2, 0x34, 0x12, 0, 0, 0, 0, 0, 0, 4, 2, 3, 5, 5, 7];
  }

  lemma Silent(c: seq<byte>, s: Row, t: Row, d: seq<byte>, u: Row)
    requires Moves(c, s, [], t) && Moves(d, t, [], u)
    ensures Moves(c + d, s, [], u)
  {
    hide Moves;
    MovesThen(c, s, [], t, d, [], u);
    var none: seq<Row> := [];
    assert none + none == none;
  }

  lemma SampleTail()
    ensures Moves([10, 1, 2, 4, 0, 1, 1], Row(0x1234, 2, 6, 7, false, false),
                  [Row(0x1234, 2, 6, 7, true, false), Row(0x1238, 2, 6, 7, false, true)], START)
  {
    hide Moves, Run, Uleb, Sleb, Little;
    var s3 := Row(0x1234, 2, 6, 7, false, false);
    var one, end := [Row(0x1234, 2, 6, 7, true, false)], [Row(0x1238, 2, 6, 7, false, true)];
    SampleRow();
    SampleEnd();
    MovesThen([10, 1], s3, one, s3, [2, 4, 0, 1, 1], end, START);
    assert [10, 1] + [2, 4, 0, 1, 1] == [10, 1, 2, 4, 0, 1, 1];
    assert one + end == [Row(0x1234, 2, 6, 7, true, false), Row(0x1238, 2, 6, 7, false, true)];
  }

  lemma SampleRow()
    ensures var s3 := Row(0x1234, 2, 6, 7, false, false);
            Moves([10, 1], s3, [Row(0x1234, 2, 6, 7, true, false)], s3)
  {
    hide Moves, Run;
    var s3, s4 := Row(0x1234, 2, 6, 7, false, false), Row(0x1234, 2, 6, 7, true, false);
    PrologueMoves(s3);
    CopyMoves(s4);
    MovesThen([10], s3, [], s4, [1], [s4], s3);
    assert [10] + [1] == [10, 1] && [] + [s4] == [s4];
  }

  lemma SampleEnd()
    ensures Moves([2, 4, 0, 1, 1], Row(0x1234, 2, 6, 7, false, false), [Row(0x1238, 2, 6, 7, false, true)], START)
  {
    hide Moves, Run, Uleb;
    var s3, s5 := Row(0x1234, 2, 6, 7, false, false), Row(0x1238, 2, 6, 7, false, false);
    SmallUlebs();
    OperandMoves(2, s3, 4);
    EndSequenceMoves(s5);
    assert [2] + Uleb(4) == [2, 4] && [0] + Uleb(1) + [1] == [0, 1, 1];
    MovesThen([2, 4], s3, [], s5, [0, 1, 1], [Row(0x1238, 2, 6, 7, false, true)], START);
    assert [2, 4] + [0, 1, 1] == [2, 4, 0, 1, 1];
    assert [] + [Row(0x1238, 2, 6, 7, false, true)] == [Row(0x1238, 2, 6, 7, false, true)];
  }

  lemma SmallUlebs()
    ensures Uleb(1) == [1] && Uleb(2) == [2] && Uleb(4) == [4] && Uleb(7) == [7] && Uleb(9) == [9] && Sleb(5) == [5]
  {
  }

  lemma SampleBytes()
    ensures [0] + Uleb(9) + [2] + Little(0x1234, 8) == [0, 9, 2, 0x34, 0x12, 0, 0, 0, 0, 0, 0]
    ensures [4] + Uleb(2) == [4, 2] && [3] + Sleb(5) == [3, 5] && [5] + Uleb(7) == [5, 7]
  {
    SmallUlebs();
    AddressBytes();
    hide Uleb, Sleb, Little;
  }

  lemma AddressBytes()
    ensures Little(0x1234, 8) == [0x34, 0x12, 0, 0, 0, 0, 0, 0]
  {
    assert Little(0, 3) == [0, 0, 0];
    assert Little(0, 6) == [0, 0, 0, 0, 0, 0];
    assert Little(0x12, 7) == [0x12] + Little(0, 6);
  }

  // ---------- The whole section ----------

  // A name as a C string can hold it, and as a file table can.
  predicate Name(f: seq<byte>) {
    f != [] && 0 !in f
  }

  function ReadString(b: seq<byte>): Option<(seq<byte>, seq<byte>)>
    decreases |b|
  {
    if b == [] then None
    else if b[0] == 0 then Some(([], b[1..]))
    else match ReadString(b[1..])
      case None => None
      case Some((f, rest)) => Some(([b[0]] + f, rest))
  }

  lemma {:induction false} StringRoundTrip(f: seq<byte>, rest: seq<byte>)
    requires 0 !in f
    ensures ReadString(f + [0] + rest) == Some((f, rest))
    decreases |f|
  {
    var b := f + [0] + rest;
    if f == [] {
      assert b[1..] == rest;
    } else {
      assert b[1..] == f[1..] + [0] + rest;
      StringRoundTrip(f[1..], rest);
      assert f == [f[0]] + f[1..];
    }
  }

  lemma ShorterString(b: seq<byte>)
    ensures ReadString(b).Some? ==> |ReadString(b).value.1| < |b|
    decreases |b|
  {
    if b != [] && b[0] != 0 {
      ShorterString(b[1..]);
    }
  }

  // File entries, each a name and three numbers, up to an empty name.
  function ReadFiles(b: seq<byte>): Option<(seq<seq<byte>>, seq<byte>)>
    decreases |b|
  {
    ShorterString(b);
    match ReadString(b)
    case None => None
    case Some((f, r0)) =>
      if f == [] then Some(([], r0))
      else match SkipThree(r0)
        case None => None
        case Some(r) =>
          if |r| > |r0| then None
          else match ReadFiles(r)
            case None => None
            case Some((files, rest)) => Some(([f] + files, rest))
  }

  function SkipThree(b: seq<byte>): Option<seq<byte>> {
    match ReadUleb(b)
    case None => None
    case Some((_, b1)) => match ReadUleb(b1)
      case None => None
      case Some((_, b2)) => match ReadUleb(b2)
        case None => None
        case Some((_, b3)) => Some(b3)
  }

  function FileEntries(files: seq<seq<byte>>): seq<byte> {
    if files == [] then [] else FileEntries(files[..|files| - 1]) + files[|files| - 1] + [0] + Uleb(0) + Uleb(0) + Uleb(0)
  }

  lemma {:induction false} FilesRoundTrip(files: seq<seq<byte>>, tail: seq<seq<byte>>, b: seq<byte>, rest: seq<byte>)
    requires forall i :: 0 <= i < |files| ==> Name(files[i])
    requires ReadFiles(b) == Some((tail, rest))
    ensures ReadFiles(FileEntries(files) + b) == Some((files + tail, rest))
    decreases |files|
  {
    hide ReadFiles;
    if files == [] {
      assert FileEntries(files) + b == b;
      assert files + tail == tail;
    } else {
      var n := |files| - 1;
      var f, init := files[n], files[..n];
      var mine := f + [0] + Uleb(0) + Uleb(0) + Uleb(0);
      OneFile(f, tail, b, rest);
      assert FileEntries(files) + b == FileEntries(init) + (mine + b);
      FilesRoundTrip(init, [f] + tail, mine + b, rest);
      assert init + ([f] + tail) == files + tail;
    }
  }

  lemma OneFile(f: seq<byte>, tail: seq<seq<byte>>, b: seq<byte>, rest: seq<byte>)
    requires Name(f) && ReadFiles(b) == Some((tail, rest))
    ensures ReadFiles(f + [0] + Uleb(0) + Uleb(0) + Uleb(0) + b) == Some(([f] + tail, rest))
  {
    hide Uleb, ReadUleb, ReadString;
    var z := Uleb(0);
    var r0 := z + (z + (z + b));
    var whole := f + [0] + z + z + z + b;
    assert whole == f + [0] + r0;
    StringRoundTrip(f, r0);
    UlebRoundTrip(0, z + (z + b));
    UlebRoundTrip(0, z + b);
    UlebRoundTrip(0, b);
    assert SkipThree(r0) == Some(b);
    ShorterString(whole);
  }

  // minimum_instruction_length to opcode_base, and the operand counts of the standard opcodes
  const FIXED: seq<byte> := [1, 1, 1, 1, 1, 13, 0, 1, 1, 1, 1, 0, 0, 0, 1, 0, 0, 1]

  // What a consumer of one unit finds: its file table and the rows of its program.
  function ReadUnit(b: seq<byte>): Option<(seq<seq<byte>>, seq<Row>)> {
    if |b| < 10 || FromLittle(b[..4]) + 4 != |b| || FromLittle(b[4..6]) != 4 then None
    else
      var n := FromLittle(b[6..10]);
      if n < 19 || 10 + n > |b| || b[10..28] != FIXED || b[28] != 0 then None
      else match ReadFiles(b[29..10 + n])
        case None => None
        case Some((files, rest)) =>
          if rest != [] then None
          else match Run(b[10 + n..], START)
            case None => None
            case Some(rows) => Some((files, rows))
  }

  // emit_debug_line: what it emits reads back as the file table and one row for each line.
  method EmitDebugLine(lines: seq<Entry>, funcs: seq<Func>, unit: Option<seq<byte>>, base: nat)
    returns (section: seq<byte>, files: seq<seq<byte>>, ghost rows: seq<Row>)
    requires base < TWO64
    ensures Faithful(rows, lines, files, funcs, base)
    ensures forall i :: 0 <= i < |lines| ==> Contains(files, lines[i].file)
    ensures (forall i :: 0 <= i < |files| ==> Name(files[i])) && |section| < 0x1_0000_0000 ==>
              ReadUnit(section) == Some((files, rows))
  {
    hide Faithful, Run, ReadFiles, Little, FromLittle;
    files := FileTable(lines, unit);
    var hdr := Header(files);
    var prog;
    prog, rows := EmitProgram(lines, files, funcs, base);
    var size := |hdr| - 4 + |prog|;
    section := Little(size, 4) + hdr[4..] + prog;
    ghost var h := HeaderBytes(files);
    assert |hdr| == 10 + |h| && hdr[4..] == Little(4, 2) + Little(|h|, 4) + h;
    if (forall i :: 0 <= i < |files| ==> Name(files[i])) && |section| < 0x1_0000_0000 {
      ReadsBack(files, prog, rows);
    }
  }

  ghost function HeaderBytes(files: seq<seq<byte>>): seq<byte> {
    FIXED + [0] + FileEntries(files) + [0]
  }

  // The header, with its length patched in behind the fact and that of the unit still to come.
  method Header(files: seq<seq<byte>>) returns (hdr: seq<byte>)
    ensures var h := HeaderBytes(files); hdr == Little(0, 4) + Little(4, 2) + Little(|h|, 4) + h
  {
    hide Little, FIXED, HeaderBytes, FileEntries;
    var b := new Buffer();
    b.Unsigned(0, 4);
    b.Unsigned(4, 2);
    b.Unsigned(0, 4);
    var off := |b.data| - 4;
    b.Append(FIXED);
    b.U8(0);
    ghost var start := b.data;
    AppendFiles(b, files);
    b.U8(0);
    Patched(b.data, HeaderBytes(files), start, files);
    var length := |b.data| - (off + 4);
    hdr := b.data[..off] + Little(length, 4) + b.data[off + 4..];
  }

  method AppendFiles(b: Buffer, files: seq<seq<byte>>)
    modifies b
    ensures b.data == old(b.data) + FileEntries(files)
  {
    hide Uleb;
    var i := 0;
    while i < |files|
      invariant 0 <= i <= |files| && b.data == old(b.data) + FileEntries(files[..i])
    {
      assert files[..i + 1][..i] == files[..i];
      b.Append(files[i]);
      b.U8(0);
      b.UnsignedLeb(0);
      b.UnsignedLeb(0);
      b.UnsignedLeb(0);
      i := i + 1;
    }
    assert files[..i] == files;
  }

  lemma Patched(data: seq<byte>, h: seq<byte>, start: seq<byte>, files: seq<seq<byte>>)
    requires start == Little(0, 4) + Little(4, 2) + Little(0, 4) + FIXED + [0]
    requires data == start + FileEntries(files) + [0] && h == HeaderBytes(files)
    ensures |data| == 10 + |h| && data[..6] == Little(0, 4) + Little(4, 2) && data[10..] == h
  {
    hide Little, FileEntries, FIXED;
    var head := Little(0, 4) + Little(4, 2) + Little(0, 4);
    assert data == head + h;
    assert head[..6] == Little(0, 4) + Little(4, 2);
  }

  lemma SmallLittle(v: nat, n: nat)
    requires n == 2 || n == 4
    requires v < if n == 2 then 0x1_0000 else 0x1_0000_0000
    ensures FromLittle(Little(v, n)) == v
  {
    hide Little, FromLittle;
    LittleRoundTrip(v, n);
    assert Power256(2) == 0x1_0000 && Power256(4) == 0x1_0000_0000;
  }

  lemma ReadsBack(files: seq<seq<byte>>, prog: seq<byte>, rows: seq<Row>)
    requires forall i :: 0 <= i < |files| ==> Name(files[i])
    requires Run(prog, START) == Some(rows)
    requires var h := HeaderBytes(files); 10 + |h| + |prog| < 0x1_0000_0000
    ensures var h := HeaderBytes(files);
            ReadUnit(Little(6 + |h| + |prog|, 4) + (Little(4, 2) + Little(|h|, 4) + h) + prog) == Some((files, rows))
  {
    hide Run, ReadFiles, Little, FromLittle, FileEntries, FIXED, HeaderBytes, ReadUnit;
    var h := HeaderBytes(files);
    var n := |h|;
    var size, version, length := Little(6 + n + |prog|, 4), Little(4, 2), Little(n, 4);
    Cuts(size, version, length, h, prog);
    HeaderCuts(size + (version + length + h) + prog, files, h);
    SmallLittle(6 + n + |prog|, 4);
    SmallLittle(4, 2);
    SmallLittle(n, 4);
    EmptyTable();
    FilesRoundTrip(files, [], [0], []);
    assert files + [] == files;
    ReadsParts(size + (version + length + h) + prog, n, files, rows);
  }

  lemma ReadsParts(b: seq<byte>, n: nat, files: seq<seq<byte>>, rows: seq<Row>)
    requires 29 <= 10 + n <= |b| && FromLittle(b[..4]) + 4 == |b| && FromLittle(b[4..6]) == 4 && FromLittle(b[6..10]) == n
    requires b[10..28] == FIXED && b[28] == 0 && ReadFiles(b[29..10 + n]) == Some((files, []))
    requires Run(b[10 + n..], START) == Some(rows)
    ensures ReadUnit(b) == Some((files, rows))
  {
    hide Run, ReadFiles, FromLittle, FIXED;
  }

  lemma Cuts(size: seq<byte>, version: seq<byte>, length: seq<byte>, h: seq<byte>, prog: seq<byte>)
    requires |size| == 4 && |version| == 2 && |length| == 4
    ensures var b := size + (version + length + h) + prog;
            && |b| == 10 + |h| + |prog| && b[..4] == size && b[4..6] == version && b[6..10] == length
            && b[10..10 + |h|] == h && b[10 + |h|..] == prog
  {
  }

  lemma HeaderCuts(b: seq<byte>, files: seq<seq<byte>>, h: seq<byte>)
    requires h == HeaderBytes(files) && |b| >= 10 + |h| && b[10..10 + |h|] == h
    ensures |h| >= 20 && b[10..28] == FIXED && b[28] == 0 && b[29..10 + |h|] == FileEntries(files) + [0]
  {
    hide FileEntries;
    assert |FIXED| == 18;
    hide FIXED;
    assert b[10..28] == h[..18];
    assert b[28] == h[18];
    assert b[29..10 + |h|] == h[19..];
  }

  lemma EmptyTable()
    ensures ReadFiles([0]) == Some(([], []))
  {
    assert [0][1..] == [];
  }
}
