/**
  The three Streamlit callbacks of meshview.py:8-62, acting on the
  session state, a dictionary from keys to values. Each callback is a
  method of `SessionState` that updates its `state` field, proved against
  a function giving the new state; a Python exception the callback lets
  escape is an outcome with `ok == false`, together with whatever state
  the callback had already written.
*/
module Session {
  import opened Common
  import opened PyInt

  /** A table of cells addressed by (row label, column name). */
  type Table = map<(int, string), real>

  /** The edits `st.data_editor` records: row label to column name to new value. */
  type Edits = map<int, map<string, real>>

  /** The kinds of values the app keeps in its session state. */
  datatype Value =
    | NoneValue
    | IntValue(n: int)
    | StrValue(s: string)
    | TableValue(table: Table)
    | EditorValue(editedRows: Edits)

  type State = map<string, Value>

  /** The state a callback leaves, and whether it returned without an exception. */
  datatype Outcome = Outcome(state: State, ok: bool)

  // ---------------------------------------------------------------------
  // callback_apply_edited_rows (meshview.py:8-26)

  /** The cells an edit set writes. */
  function EditedCells(e: Edits): set<(int, string)> {
    set i, c | i in e && c in e[i] :: (i, c)
  }

  /** Whether some row of the edit set holds at least one cell. */
  predicate HasCellEdits(e: Edits) {
    exists i :: i in e && e[i] != map[]
  }

  /** A table with every edited cell set to its new value; `.loc` adds a cell that is not there yet. */
  function Applied(t: Table, e: Edits): (r: Table)
    ensures r.Keys == t.Keys + EditedCells(e)
  {
    map k | k in t.Keys + EditedCells(e) :: if k.0 in e && k.1 in e[k.0] then e[k.0][k.1] else t[k]
  }

  /**
    What callback_apply_edited_rows does to the state: it reads the
    editor's `edited_rows` (KeyError when the editor key is missing) and
    writes each edited cell into the target table; the target is looked
    up only when there is a cell to write.
  */
  function ApplyEdits(st: State, keyEditor: string, keyTarget: string): Outcome {
    if keyEditor !in st || !st[keyEditor].EditorValue? then Outcome(st, false)
    else
      var e := st[keyEditor].editedRows;
      if !HasCellEdits(e) then Outcome(st, true)
      else if keyTarget !in st || !st[keyTarget].TableValue? then Outcome(st, false)
      else Outcome(st[keyTarget := TableValue(Applied(st[keyTarget].table, e))], true)
  }

  /** Every edited cell holds its new value, every other cell keeps its old one. */
  lemma AppliedCells(t: Table, e: Edits)
    ensures forall i, c :: i in e && c in e[i] ==> (i, c) in Applied(t, e) && Applied(t, e)[(i, c)] == e[i][c]
    ensures forall k :: k in t && k !in EditedCells(e) ==> k in Applied(t, e) && Applied(t, e)[k] == t[k]
  {
    forall i, c | i in e && c in e[i] ensures (i, c) in EditedCells(e) {
    }
  }

  /** No edits leave the table unchanged. */
  lemma AppliedNothing(t: Table)
    ensures Applied(t, map[]) == t
  {
  }

  /** Applying the same edits again changes nothing. */
  lemma AppliedIdempotent(t: Table, e: Edits)
    ensures Applied(Applied(t, e), e) == Applied(t, e)
  {
  }

  /** The callback touches no key but the target, and fails only for a missing or ill-typed key. */
  lemma ApplyEditsFrame(st: State, keyEditor: string, keyTarget: string)
    ensures ApplyEdits(st, keyEditor, keyTarget).state.Keys == st.Keys
    ensures forall k :: k in st && k != keyTarget ==> ApplyEdits(st, keyEditor, keyTarget).state[k] == st[k]
    ensures !ApplyEdits(st, keyEditor, keyTarget).ok <==>
      keyEditor !in st || !st[keyEditor].EditorValue? ||
      (HasCellEdits(st[keyEditor].editedRows) && (keyTarget !in st || !st[keyTarget].TableValue?))
    ensures !ApplyEdits(st, keyEditor, keyTarget).ok ==> ApplyEdits(st, keyEditor, keyTarget).state == st
  {
  }

  /** A callback run a second time on the state it left changes nothing more. */
  lemma ApplyEditsIdempotent(st: State, keyEditor: string, keyTarget: string)
    requires keyEditor != keyTarget
    ensures var o := ApplyEdits(st, keyEditor, keyTarget);
      ApplyEdits(o.state, keyEditor, keyTarget) == o
  {
    var o := ApplyEdits(st, keyEditor, keyTarget);
    if keyEditor in st && st[keyEditor].EditorValue? && HasCellEdits(st[keyEditor].editedRows)
       && keyTarget in st && st[keyTarget].TableValue? {
      AppliedIdempotent(st[keyTarget].table, st[keyEditor].editedRows);
    }
  }

  // Helpers for the loop of ApplyEditedRows

  lemma EditedCellsIn(e: Edits, k: (int, string))
    ensures k in EditedCells(e) <==> k.0 in e && k.1 in e[k.0]
  {
    if k.0 in e && k.1 in e[k.0] {
      var i, c := k.0, k.1;
      assert (i, c) in EditedCells(e);
    }
  }

  lemma ApplyOneCell(t: Table, rows: Edits, idx: int, cols: map<string, real>, col: string)
    requires col in cols
    ensures Applied(t[(idx, col) := cols[col]], rows[idx := cols - {col}]) == Applied(t, rows[idx := cols])
  {
    var after, before := rows[idx := cols - {col}], rows[idx := cols];
    var a := Applied(t[(idx, col) := cols[col]], after);
    var b := Applied(t, before);
    forall k ensures k in a <==> k in b {
      EditedCellsIn(after, k);
      EditedCellsIn(before, k);
    }
    forall k | k in a ensures a[k] == b[k] {
      EditedCellsIn(after, k);
      EditedCellsIn(before, k);
    }
  }

  lemma PickRow(rows: Edits) returns (idx: int)
    requires rows != map[]
    ensures idx in rows
  {
    if forall k: int :: k !in rows { assert false; } idx :| idx in rows;
  }

  lemma DropEmptyRow(t: Table, rows: Edits, idx: int)
    ensures Applied(t, rows[idx := map[]]) == Applied(t, rows - {idx})
  {
    assert EditedCells(rows[idx := map[]]) == EditedCells(rows - {idx});
  }

  lemma RowCellEdits(rows: Edits, idx: int, cols: map<string, real>, col: string)
    requires col in cols
    ensures HasCellEdits(rows[idx := cols])
  {
    assert rows[idx := cols][idx] != map[];
  }

  lemma NoCellEditsStep(rows: Edits, idx: int, cols: map<string, real>)
    requires idx in rows && cols == map[]
    ensures HasCellEdits(rows) <==> HasCellEdits(rows - {idx}) || rows[idx] != map[]
    ensures HasCellEdits(rows[idx := cols]) <==> HasCellEdits(rows - {idx})
  {
    if HasCellEdits(rows) {
      var i :| i in rows && rows[i] != map[];
      if i != idx { assert (rows - {idx})[i] != map[]; }
    }
    if HasCellEdits(rows[idx := cols]) {
      var i :| i in rows[idx := cols] && rows[idx := cols][i] != map[];
      assert (rows - {idx})[i] != map[];
    }
    if HasCellEdits(rows - {idx}) {
      var i :| i in rows - {idx} && (rows - {idx})[i] != map[];
      assert rows[i] != map[] && rows[idx := cols][i] != map[];
    }
  }

  /**
    The state of ApplyEditedRows's loops: `pending` are the edits still to
    write into the target table st0 held, `touched` records whether a cell
    was written yet.
  */
  predicate Progress(st0: State, st: State, keyTarget: string, pending: Edits, e: Edits, touched: bool) {
    && (HasCellEdits(e) <==> HasCellEdits(pending) || touched)
    && (!touched ==> st == st0)
    && (touched ==> keyTarget in st0 && st0[keyTarget].TableValue? && keyTarget in st && st == st0[keyTarget := st[keyTarget]])
    && (keyTarget in st0 && st0[keyTarget].TableValue? ==>
          keyTarget in st && st[keyTarget].TableValue? &&
          Applied(st[keyTarget].table, pending) == Applied(st0[keyTarget].table, e))
  }

  lemma ProgressStart(st: State, keyTarget: string, e: Edits)
    ensures Progress(st, st, keyTarget, e, e, false)
  {
  }

  lemma ProgressWrite(st0: State, st: State, keyTarget: string, rows: Edits, idx: int,
                      cols: map<string, real>, col: string, e: Edits, touched: bool)
    requires Progress(st0, st, keyTarget, rows[idx := cols], e, touched)
    requires col in cols && keyTarget in st && st[keyTarget].TableValue?
    ensures Progress(st0, st[keyTarget := TableValue(st[keyTarget].table[(idx, col) := cols[col]])],
                     keyTarget, rows[idx := cols - {col}], e, true)
  {
    var t := st[keyTarget].table;
    ApplyOneCell(t, rows, idx, cols, col);
    RowCellEdits(rows, idx, cols, col);
    var st' := st[keyTarget := TableValue(t[(idx, col) := cols[col]])];
    assert st' == st0[keyTarget := st'[keyTarget]];
  }

  lemma ProgressRowDone(st0: State, st: State, keyTarget: string, rows: Edits, idx: int, e: Edits, touched: bool)
    requires idx in rows && Progress(st0, st, keyTarget, rows[idx := map[]], e, touched)
    ensures Progress(st0, st, keyTarget, rows - {idx}, e, touched)
  {
    NoCellEditsStep(rows, idx, map[]);
    if keyTarget in st && st[keyTarget].TableValue? {
      DropEmptyRow(st[keyTarget].table, rows, idx);
    }
  }

  lemma ProgressEnd(st0: State, st: State, keyEditor: string, keyTarget: string, e: Edits, touched: bool)
    requires keyEditor in st0 && st0[keyEditor] == EditorValue(e)
    requires Progress(st0, st, keyTarget, map[], e, touched)
    ensures ApplyEdits(st0, keyEditor, keyTarget) == Outcome(st, true)
  {
    if touched {
      AppliedNothing(st[keyTarget].table);
      assert st[keyTarget] == TableValue(Applied(st0[keyTarget].table, e));
    }
  }

  lemma ProgressFail(st0: State, st: State, keyEditor: string, keyTarget: string, rows: Edits, idx: int,
                     cols: map<string, real>, col: string, e: Edits, touched: bool)
    requires keyEditor in st0 && st0[keyEditor] == EditorValue(e)
    requires Progress(st0, st, keyTarget, rows[idx := cols], e, touched)
    requires col in cols && !(keyTarget in st && st[keyTarget].TableValue?)
    ensures ApplyEdits(st0, keyEditor, keyTarget) == Outcome(st, false)
  {
    RowCellEdits(rows, idx, cols, col);
  }

  // ---------------------------------------------------------------------
  // callback_set_step_df (meshview.py:29-47)

  /**
    It sets `step` first; then, with a key, moves the value under that key
    to `df_pt` and deletes the key. A missing key raises KeyError after
    `step` was already written.
  */
  function SetStepDf(st: State, step: int, key: Option<string>): Outcome {
    var s1 := st["step" := IntValue(step)];
    if key.None? then Outcome(s1, true)
    else if key.value !in s1 then Outcome(s1, false)
    else Outcome(s1["df_pt" := s1[key.value]] - {key.value}, true)
  }

  /** With a key other than `step` and `df_pt`, its value moves to `df_pt` and nothing else changes. */
  lemma SetStepMovesTable(st: State, step: int, key: string)
    requires key in st && key != "step" && key != "df_pt"
    ensures var o := SetStepDf(st, step, Some(key));
      && o.ok
      && o.state.Keys == st.Keys - {key} + {"step", "df_pt"}
      && o.state["step"] == IntValue(step)
      && o.state["df_pt"] == st[key]
      && forall k :: k in st && k !in {key, "step", "df_pt"} ==> o.state[k] == st[k]
  {
  }

  /** Without a key only `step` changes. */
  lemma SetStepOnly(st: State, step: int)
    ensures SetStepDf(st, step, None) == Outcome(st["step" := IntValue(step)], true)
  {
  }

  /** A missing key raises after `step` is set. */
  lemma SetStepMissingKey(st: State, step: int, key: string)
    requires key !in st && key != "step"
    ensures SetStepDf(st, step, Some(key)) == Outcome(st["step" := IntValue(step)], false)
  {
  }

  /** Passing `df_pt` itself as the key deletes the table it was meant to select. */
  lemma SetStepSelfDeletes(st: State, step: int)
    requires "df_pt" in st
    ensures var o := SetStepDf(st, step, Some("df_pt")); o.ok && "df_pt" !in o.state
  {
  }

  // ---------------------------------------------------------------------
  // callback_set_epsg (meshview.py:50-62)

  /**
    `epsg` after the text input `_epsg` changes: None stays None; a string
    becomes the int it denotes, or None when int() raises ValueError. A
    missing `_epsg` (KeyError) or a value int() rejects with TypeError is an
    exception that leaves the state as it was.
  */
  function SetEpsg(st: State): Outcome {
    if "_epsg" !in st then Outcome(st, false)
    else match st["_epsg"]
      case NoneValue => Outcome(st["epsg" := NoneValue], true)
      case StrValue(s) =>
        Outcome(st["epsg" := match ParseInt(s) case Some(n) => IntValue(n) case None => NoneValue], true)
      case IntValue(n) => Outcome(st["epsg" := IntValue(n)], true)
      case _ => Outcome(st, false)
  }

  /** Only `epsg` changes, and it is always None or an int afterwards. */
  lemma SetEpsgFrame(st: State)
    ensures var o := SetEpsg(st);
      && (o.ok ==> o.state.Keys == st.Keys + {"epsg"} && (o.state["epsg"].NoneValue? || o.state["epsg"].IntValue?))
      && (!o.ok ==> o.state == st)
      && forall k :: k in st && k != "epsg" ==> k in o.state && o.state[k] == st[k]
  {
  }

  /** Typing the decimal form of a code, with whitespace int() skips around it, sets that code. */
  lemma SetEpsgReadsCode(st: State, pre: string, n: int, post: string)
    requires forall k :: 0 <= k < |pre| ==> IntSpace(pre[k])
    requires forall k :: 0 <= k < |post| ==> IntSpace(post[k])
    requires DigitsOf(n) <= MaxStrDigits
    requires "_epsg" in st && st["_epsg"] == StrValue(pre + IntToString(n) + post)
    ensures SetEpsg(st) == Outcome(st["epsg" := IntValue(n)], true)
  {
    ParsePadded(pre, IntToString(n), post);
    ParseRendered(n);
  }

  /**
    A string sets an int exactly when it is a numeral once stripped, so
    "EPSG:4326", "4326.0" and "43__26" clear the code.
  */
  lemma SetEpsgNeedsNumeral(st: State, s: string)
    requires "_epsg" in st && st["_epsg"] == StrValue(s)
    ensures SetEpsg(st).state["epsg"].IntValue? <==> Numeral(Strip(s))
  {
    ParseAccepted(s);
  }

  /** A run of more digits than Python's conversion limit clears the code. */
  lemma SetEpsgDigitLimit(st: State, s: string)
    requires "_epsg" in st && st["_epsg"] == StrValue(s)
    requires |s| > MaxStrDigits && forall k :: 0 <= k < |s| ==> IsDigit(s[k])
    ensures SetEpsg(st) == Outcome(st["epsg" := NoneValue], true)
  {
    StripEnds(s);
    AllDigitsCount(s);
    ParseAccepted(s);
  }

  /** Running the callback again on the state it left changes nothing. */
  lemma SetEpsgIdempotent(st: State)
    ensures SetEpsg(SetEpsg(st).state) == SetEpsg(st)
  {
    if "_epsg" in st && st["_epsg"].StrValue? {
      var e := match ParseInt(st["_epsg"].s) case Some(n) => IntValue(n) case None => NoneValue;
      var st1 := st["epsg" := e];
      assert st1["_epsg"] == st["_epsg"];
      assert SetEpsg(st1) == Outcome(st1["epsg" := e], true);
      assert st1["epsg" := e] == st1;
    }
  }

  // ---------------------------------------------------------------------
  // The session state object

  class SessionState {
    var state: State

    constructor(init: State)
      ensures state == init
    {
      state := init;
    }

    /** callback_apply_edited_rows: the nested loops over rows and columns, writing one cell at a time. */
    method ApplyEditedRows(keyEditor: string, keyTarget: string) returns (ok: bool)
      modifies this
      ensures ApplyEdits(old(state), keyEditor, keyTarget) == Outcome(state, ok)
    {
      if keyEditor !in state || !state[keyEditor].EditorValue? {
        return false;
      }
      var edits := state[keyEditor].editedRows;
      var rows := edits;
      ghost var touched := false;
      ProgressStart(state, keyTarget, edits);
      while rows != map[]
        invariant Progress(old(state), state, keyTarget, rows, edits, touched)
        decreases |rows|
      {
        ghost var someRow := PickRow(rows);
        var idx: int :| idx in rows;
        var cols := rows[idx];
        assert rows[idx := cols] == rows;
        while cols != map[]
          invariant Progress(old(state), state, keyTarget, rows[idx := cols], edits, touched)
          decreases |cols|
        {
          var col: string :| col in cols;
          if keyTarget !in state || !state[keyTarget].TableValue? {
            ProgressFail(old(state), state, keyEditor, keyTarget, rows, idx, cols, col, edits, touched);
            return false;
          }
          ProgressWrite(old(state), state, keyTarget, rows, idx, cols, col, edits, touched);
          state := state[keyTarget := TableValue(state[keyTarget].table[(idx, col) := cols[col]])];
          touched := true;
          cols := cols - {col};
        }
        ProgressRowDone(old(state), state, keyTarget, rows, idx, edits, touched);
        rows := rows - {idx};
      }
      ProgressEnd(old(state), state, keyEditor, keyTarget, edits, touched);
      return true;
    }

    /** callback_set_step_df. */
    method SetStepDfCallback(step: int, key: Option<string>) returns (ok: bool)
      modifies this
      ensures SetStepDf(old(state), step, key) == Outcome(state, ok)
    {
      state := state["step" := IntValue(step)];
      if key.Some? {
        if key.value !in state {
          return false;
        }
        state := state["df_pt" := state[key.value]];
        state := state - {key.value};
      }
      return true;
    }

    /** callback_set_epsg. */
    method SetEpsgCallback() returns (ok: bool)
      modifies this
      ensures SetEpsg(old(state)) == Outcome(state, ok)
    {
      if "_epsg" !in state {
        return false;
      }
      var epsg := state["_epsg"];
      if epsg.NoneValue? {
        state := state["epsg" := NoneValue];
        return true;
      }
      match epsg {
        case StrValue(s) =>
          var parsed := ParseInt(s);
          if parsed.Some? {
            state := state["epsg" := IntValue(parsed.value)];
          } else {
            state := state["epsg" := NoneValue];
          }
          ok := true;
        case IntValue(n) =>
          state := state["epsg" := IntValue(n)];
          ok := true;
        case _ =>
          ok := false;
      }
    }
  }
}
