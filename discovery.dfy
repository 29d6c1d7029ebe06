/** The binding and discovery part of `process_multimap_table` (src/process_multimap.rs):
    reset both bindings, apply a `--schema` override, learn the stored type names and
    widths from the engine's errors in at most five attempts to open the table, then bind
    the type trees when both are orderable. The engine and the type-descriptor parser are
    parameters. */
module Discovery {
  import opened Wrappers
  import opened Types
  import opened Text
  import opened Transcode
  import opened ValueOrder
  import Bytes

  /** The switches the discovery reads: `--schema "K -> V"` and `--create`. */
  datatype Args = Args(schema: Option<string>, create: bool)

  /** What the two bindings declare to the engine: K's and V's type name and fixed width. */
  datatype Snapshot = Snapshot(kName: TypeName, kWidth: Option<nat>, vName: TypeName, vWidth: Option<nat>)

  /** How opening the table went, as redb's `TableError` reports it. */
  datatype Opened =
    | Opened
    | TableTypeMismatch(key: TypeName, value: TypeName)
    | TypeDefinitionChanged(name: TypeName, width: Option<nat>)
    | TableDoesNotExist
    | OtherError(code: nat)

  datatype Failure =
    | MissingArrow                  // "Use -> to separate key and value types"
    | UnparsableType(ty: string)    // `parse_tree` rejected the descriptor
    | EngineFailure(error: Opened)  // an error of the engine that is not retried

  /** A step that either yields a value or stops processing of the table with a failure. */
  datatype Outcome<T> = Success(value: T) | Failed(failure: Failure)

  /** `parser::parse_tree`: the type tree of a descriptor, None where the grammar rejects it. */
  type TypeParser = string -> Option<Ty>

  /** The engine: the outcome of the given attempt to open the table with the declared
      names and widths. */
  type Engine = (nat, Snapshot) -> Opened

  /** The declarations right after the reset: `String::type_name()` and no width. */
  const Initial := Snapshot(StringTypeName, None, StringTypeName, None)

  /** The names and widths the two bindings currently declare. */
  function Snap(cells: Cells): (s: Snapshot)
    reads cells, cells.k, cells.v
    ensures s.kName == cells.k.name && s.kWidth == cells.k.width
    ensures s.vName == cells.v.name && s.vWidth == cells.v.width
  {
    Snapshot(cells.k.name, cells.k.width, cells.v.name, cells.v.width)
  }

  // ---------------------------------------------------------------------------------------
  // Reset and schema override (lines 40-61)

  /** Both bindings back to `String::type_name()`, no width and no tree. */
  method ResetBindings(cells: Cells)
    requires cells.k != cells.v
    modifies cells.k, cells.v
    ensures Snap(cells) == Initial && cells.k.tree == None && cells.v.tree == None
  {
    cells.k.name, cells.k.width, cells.k.tree := StringTypeName, None, None;
    cells.v.name, cells.v.width, cells.v.tree := StringTypeName, None, None;
  }

  /** What a `--schema` override declares: the name on each side of the first " -> ", and
      the width `parse_size` gives its tree. */
  function SchemaDeclares(schema: string, parse: TypeParser): (r: Outcome<Snapshot>)
  {
    match SplitOnce(schema, " -> ")
    case None => Failed(MissingArrow)
    case Some((kTy, vTy)) =>
      match (parse(kTy), parse(vTy))
      case (None, _) => Failed(UnparsableType(kTy))
      case (_, None) => Failed(UnparsableType(vTy))
      case (Some(kt), Some(vt)) =>
        Success(Snapshot(TypeName(false, kTy), Width(kt), TypeName(false, vTy), Width(vt)))
  }

  /** An override without " -> " is refused; one with it names each side after its part of
      the text, and each width is the fixed width of that side's type. */
  lemma SchemaSplit(schema: string, parse: TypeParser)
    ensures SchemaDeclares(schema, parse) == Failed(MissingArrow) <==> forall j: nat :: !OccursAt(schema, " -> ", j)
    ensures SchemaDeclares(schema, parse).Success? ==>
      var s := SchemaDeclares(schema, parse).value;
      schema == s.kName.name + " -> " + s.vName.name
      && (forall j: nat :: j < |s.kName.name| ==> !OccursAt(schema, " -> ", j))
      && !s.kName.internal && !s.vName.internal
      && parse(s.kName.name).Some? && s.kWidth == Width(parse(s.kName.name).value)
      && parse(s.vName.name).Some? && s.vWidth == Width(parse(s.vName.name).value)
  {
  }

  /** Once the first " -> " splits the override into k and v, the key side is parsed first:
      an unparsable side is reported by its text, and two parsable sides declare user names
      with their widths. */
  lemma SchemaSides(schema: string, parse: TypeParser, k: string, v: string)
    requires schema == k + " -> " + v
    requires forall j: nat :: j < |k| ==> !OccursAt(schema, " -> ", j)
    ensures parse(k).None? ==> SchemaDeclares(schema, parse) == Failed(UnparsableType(k))
    ensures parse(k).Some? && parse(v).None? ==> SchemaDeclares(schema, parse) == Failed(UnparsableType(v))
    ensures parse(k).Some? && parse(v).Some? ==>
      SchemaDeclares(schema, parse)
        == Success(Snapshot(TypeName(false, k), Width(parse(k).value), TypeName(false, v), Width(parse(v).value)))
  {
    SplitOnceAt(schema, " -> ", k, v);
  }

  /** Lines 48-61: parse both sides, then set each name and width. */
  method ApplySchema(cells: Cells, schema: string, parse: TypeParser) returns (failure: Option<Failure>)
    requires cells.k != cells.v
    modifies cells.k, cells.v
    ensures SchemaDeclares(schema, parse).Success? ==> failure == None && Snap(cells) == SchemaDeclares(schema, parse).value
    ensures SchemaDeclares(schema, parse).Failed? ==>
      (failure == Some(SchemaDeclares(schema, parse).failure) && Snap(cells) == old(Snap(cells)))
    ensures cells.k.tree == old(cells.k.tree) && cells.v.tree == old(cells.v.tree)
  {
    var split := SplitOnce(schema, " -> ");
    if split.None? {
      return Some(MissingArrow);
    }
    var (kTy, vTy) := split.value;
    var kTree := parse(kTy);
    if kTree.None? {
      return Some(UnparsableType(kTy));
    }
    var vTree := parse(vTy);
    if vTree.None? {
      return Some(UnparsableType(vTy));
    }
    cells.k.name := TypeName(false, kTy);
    cells.k.width := Width(kTree.value);
    cells.v.name := TypeName(false, vTy);
    cells.v.width := Width(vTree.value);
    failure := None;
  }

  // ---------------------------------------------------------------------------------------
  // Discovery: at most five attempts to open the table (lines 63-87)

  /** What the loop does after one attempt. */
  datatype Next =
    | Stop                                 // opened: `break`
    | Retry(declares: Snapshot, create: bool)  // learn, or create the table, and try again
    | Abort(error: Opened)                 // `return Err(err.into())`

  /** One arm of the `match`: names and widths are learnt only without an override, and a
      missing table is created only with `--create`. */
  function React(s: Snapshot, o: Opened, args: Args): (n: Next)
    ensures n.Retry? && n.declares != s ==> args.schema.None?
    ensures n.Retry? && n.create ==> args.create && n.declares == s
    ensures o.OtherError? ==> n == Abort(o)
  {
    match o
    case Opened => Stop
    case TableTypeMismatch(key, value) =>
      if args.schema.None? then Retry(s.(kName := key, vName := value), false) else Abort(o)
    case TypeDefinitionChanged(name, width) =>
      if args.schema.None? then
        Retry(s.(kWidth := if s.kName == name then width else s.kWidth,
                 vWidth := if s.vName == name then width else s.vWidth), false)
      else Abort(o)
    case TableDoesNotExist =>
      if args.create then Retry(s, true) else Abort(o)
    case OtherError(_) => Abort(o)
  }

  /** The result of the loop: the failure that ended it, if any, the final declarations,
      how many times the table was opened and how many times it was created. */
  datatype Discovered = Discovered(failure: Option<Failure>, declares: Snapshot, attempts: nat, creations: nat)

  /** The loop from attempt i on, starting from the declarations s. */
  function Discover(args: Args, open: Engine, i: nat, s: Snapshot): (d: Discovered)
    requires i <= 5
    ensures i <= d.attempts <= 5 && (i < 5 ==> i < d.attempts)
    ensures d.creations <= d.attempts - i
    decreases 5 - i
  {
    if i == 5 then Discovered(None, s, 5, 0)
    else
      match React(s, open(i, s), args)
      case Stop => Discovered(None, s, i + 1, 0)
      case Abort(e) => Discovered(Some(EngineFailure(e)), s, i + 1, 0)
      case Retry(s', c) =>
        var d := Discover(args, open, i + 1, s');
        d.(creations := d.creations + if c then 1 else 0)
  }

  /** The loop of lines 64-87: the engine sees what the cells declare at each attempt. */
  method OpenTable(cells: Cells, args: Args, open: Engine) returns (failure: Option<Failure>, creations: nat)
    requires cells.k != cells.v
    modifies cells.k, cells.v
    ensures var d := Discover(args, open, 0, old(Snap(cells)));
      failure == d.failure && Snap(cells) == d.declares && creations == d.creations
    ensures cells.k.tree == old(cells.k.tree) && cells.v.tree == old(cells.v.tree)
  {
    ghost var whole := Discover(args, open, 0, Snap(cells));
    creations := 0;
    var i := 0;
    while i < 5
      invariant 0 <= i <= 5
      invariant whole == Counted(Discover(args, open, i, Snap(cells)), creations)
      invariant cells.k.tree == old(cells.k.tree) && cells.v.tree == old(cells.v.tree)
    {
      var o := open(i, Snap(cells));
      var stop, f, created := Attempt(cells, args, o);
      if stop {
        return f, creations;
      }
      if created {
        creations := creations + 1;
      }
      i := i + 1;
    }
    failure := None;
  }

  /** One arm of the `match` on what the engine answered, applied to the cells: whether the
      loop stops (and with what failure), or, when it goes on, whether the table was
      created. */
  method Attempt(cells: Cells, args: Args, o: Opened) returns (stop: bool, failure: Option<Failure>, created: bool)
    requires cells.k != cells.v
    modifies cells.k, cells.v
    ensures match React(old(Snap(cells)), o, args)
      case Stop => stop && failure.None? && Snap(cells) == old(Snap(cells))
      case Abort(e) => stop && failure == Some(EngineFailure(e)) && Snap(cells) == old(Snap(cells))
      case Retry(s, c) => !stop && Snap(cells) == s && created == c
    ensures cells.k.tree == old(cells.k.tree) && cells.v.tree == old(cells.v.tree)
  {
    stop, failure, created := true, Some(EngineFailure(o)), false;
    match o {
      case Opened =>
        failure := None;
      case TableTypeMismatch(key, value) =>
        if args.schema.None? {
          cells.k.name := key;
          cells.v.name := value;
          stop := false;
        }
      case TypeDefinitionChanged(name, width) =>
        if args.schema.None? {
          if cells.k.name == name {
            cells.k.width := width;
          }
          if cells.v.name == name {
            cells.v.width := width;
          }
          stop := false;
        }
      case TableDoesNotExist =>
        if args.create {
          stop, created := false, true;
        }
      case OtherError(_) =>
    }
  }

  /** d with c more creations counted. */
  function Counted(d: Discovered, c: nat): Discovered
  {
    d.(creations := d.creations + c)
  }

  /** With an override, the engine's errors never change what the bindings declare. */
  lemma {:induction false} OverrideKeepsDeclares(args: Args, open: Engine, i: nat, s: Snapshot)
    requires args.schema.Some? && i <= 5
    ensures Discover(args, open, i, s).declares == s
    decreases 5 - i
  {
    if i < 5 && React(s, open(i, s), args).Retry? {
      OverrideKeepsDeclares(args, open, i + 1, s);
    }
  }

  /** The table is only ever created with `--create`, and without it a missing table
      ends the processing. */
  lemma {:induction false} CreatesOnlyWithFlag(args: Args, open: Engine, i: nat, s: Snapshot)
    requires i <= 5
    ensures Discover(args, open, i, s).creations > 0 ==> args.create
    ensures Discover(args, open, i, s).failure == Some(EngineFailure(TableDoesNotExist)) ==> !args.create
    decreases 5 - i
  {
    if i < 5 && React(s, open(i, s), args).Retry? {
      CreatesOnlyWithFlag(args, open, i + 1, React(s, open(i, s), args).declares);
    }
  }

  // ---------------------------------------------------------------------------------------
  // Discovery converges on a table as redb reports it

  /** How redb answers an attempt to open a table stored with the declarations `stored`:
      the names first, then the key width, then the value width. */
  function RedbOpen(stored: Snapshot, req: Snapshot): Opened
  {
    if req.kName != stored.kName || req.vName != stored.vName then TableTypeMismatch(stored.kName, stored.vName)
    else if req.kWidth != stored.kWidth then TypeDefinitionChanged(stored.kName, stored.kWidth)
    else if req.vWidth != stored.vWidth then TypeDefinitionChanged(stored.vName, stored.vWidth)
    else Opened
  }

  /** A stored table whose key and value types have one name has one width for it. */
  predicate Consistent(stored: Snapshot)
  {
    stored.kName == stored.vName ==> stored.kWidth == stored.vWidth
  }

  /** The number of further errors before redb opens the table. */
  function Distance(stored: Snapshot, s: Snapshot): (n: nat)
    ensures n == 0 <==> s == stored
  {
    if s.kName != stored.kName || s.vName != stored.vName then 3
    else if s.kWidth != stored.kWidth then 2
    else if s.vWidth != stored.vWidth then 1
    else 0
  }

  /** Each error redb reports brings the declarations one step closer to the table's. */
  lemma RedbStep(args: Args, stored: Snapshot, s: Snapshot)
    requires args.schema.None? && Consistent(stored) && s != stored
    ensures React(s, RedbOpen(stored, s), args).Retry?
    ensures var s' := React(s, RedbOpen(stored, s), args).declares;
      Distance(stored, s') < Distance(stored, s) && !React(s, RedbOpen(stored, s), args).create
  {
  }

  /** Without an override, discovery learns the stored names and widths and opens the table
      after at most three errors, well within the five attempts. */
  lemma {:induction false} Converges(args: Args, stored: Snapshot, i: nat, s: Snapshot)
    requires args.schema.None? && Consistent(stored) && i + Distance(stored, s) < 5
    ensures var d := Discover(args, (n: nat, req: Snapshot) => RedbOpen(stored, req), i, s);
      d.failure == None && d.declares == stored && d.creations == 0 && d.attempts <= i + Distance(stored, s) + 1
    decreases Distance(stored, s)
  {
    var open := (n: nat, req: Snapshot) => RedbOpen(stored, req);
    assert open(i, s) == RedbOpen(stored, s);
    if s != stored {
      RedbStep(args, stored, s);
      Converges(args, stored, i + 1, React(s, RedbOpen(stored, s), args).declares);
    }
  }

  /** From the reset declarations, discovery ends with the stored ones. */
  lemma ConvergesFromReset(args: Args, stored: Snapshot)
    requires args.schema.None? && Consistent(stored)
    ensures var d := Discover(args, (n: nat, req: Snapshot) => RedbOpen(stored, req), 0, Initial);
      d.failure == None && d.declares == stored && d.attempts <= 4
  {
    Converges(args, stored, 0, Initial);
  }

  // ---------------------------------------------------------------------------------------
  // Binding the type trees (lines 97-139)

  datatype Warning =
    | ValueTypeDefaulted(original: string, fallback: string)  // "Error parsing value type"
    | KeyUnordered(shown: string)                             // "Key type .. can't be ordered."
    | ValueUnordered(shown: string)                           // "Value type .. can't be ordered."

  /** What binding the trees ends with: the failure, the warnings printed, and the trees
      given to the K and V bindings (None where the TREE cell keeps its old content). */
  datatype Bound = Bound(failure: Option<Failure>, warnings: seq<Warning>, kTree: Option<Ty>, vTree: Option<Ty>)

  /** The warning of the value-type orderability check, as written: it shows the KEY's name. */
  function ValueWarningAsWritten(kName: TypeName, vName: TypeName): (w: Warning)
    ensures w.ValueUnordered? && w.shown == kName.name
  {
    ValueUnordered(kName.name)
  }

  /** The warning the check evidently means: it shows the value type's name. */
  function ValueWarning(kName: TypeName, vName: TypeName): (w: Warning)
    ensures w.ValueUnordered? && w.shown == vName.name
  {
    ValueUnordered(vName.name)
  }

  /** Whenever the key and value names differ, the warning as written names the wrong type:
      with `--schema "u32 -> f64"` it reports the value type "u32". */
  lemma ValueWarningNamesKey(kName: TypeName, vName: TypeName)
    requires kName.name != vName.name
    ensures ValueWarningAsWritten(kName, vName).shown != vName.name
    ensures ValueWarning(kName, vName).shown == vName.name
  {
  }

  /** The descriptor a name is parsed from for the value side: its own text, or "String"
      when that does not parse. */
  function ValueDescriptor(vName: TypeName, parse: TypeParser): (d: string)
    ensures parse(vName.name).Some? ==> d == vName.name
    ensures parse(vName.name).None? ==> d == "String"
  {
    if parse(vName.name).Some? then vName.name else "String"
  }

  /** Lines 100-139 on the names the bindings declare. */
  function BindSpec(kName: TypeName, vName: TypeName, parse: TypeParser): Bound
  {
    match parse(kName.name)
    case None => Bound(Some(UnparsableType(kName.name)), [], None, None)
    case Some(kt) =>
      var vTy := ValueDescriptor(vName, parse);
      var defaulted := if parse(vName.name).Some? then [] else [ValueTypeDefaulted(vName.name, vTy)];
      match parse(vTy)
      case None => Bound(Some(UnparsableType(vTy)), defaulted, None, None)
      case Some(vt) =>
        if !CanOrder(kt) then Bound(None, defaulted + [KeyUnordered(kName.name)], None, None)
        else if !CanOrder(vt) then Bound(None, defaulted + [ValueWarning(kName, vName)], None, None)
        else Bound(None, defaulted, Some(kt), Some(vt))
  }

  /** Lines 97-139: parse the two declared names (the value falls back to "String"), and
      give the trees to the bindings only when both types are orderable. */
  method BindTrees(cells: Cells, parse: TypeParser) returns (failure: Option<Failure>, warnings: seq<Warning>)
    requires cells.k != cells.v
    modifies cells.k, cells.v
    ensures var b := BindSpec(old(cells.k.name), old(cells.v.name), parse);
      failure == b.failure && warnings == b.warnings
      && cells.k.tree == (if b.kTree.Some? then b.kTree else old(cells.k.tree))
      && cells.v.tree == (if b.vTree.Some? then b.vTree else old(cells.v.tree))
    ensures Snap(cells) == old(Snap(cells))
  {
    var kTy: string := [];
    kTy := kTy + cells.k.name.name;
    assert kTy == cells.k.name.name;
    var kTree := parse(kTy);
    if kTree.None? {
      return Some(UnparsableType(kTy)), [];
    }
    var vTy: string := [];
    vTy := vTy + cells.v.name.name;
    assert vTy == cells.v.name.name;
    warnings := [];
    if parse(vTy).None? {
      vTy := [];
      vTy := vTy + "String";
      assert vTy == "String";
      warnings := [ValueTypeDefaulted(cells.v.name.name, vTy)];
    }
    var vTree := parse(vTy);
    if vTree.None? {
      return Some(UnparsableType(vTy)), warnings;
    }
    if !CanOrder(kTree.value) {
      return None, warnings + [KeyUnordered(cells.k.name.name)];
    }
    if !CanOrder(vTree.value) {
      return None, warnings + [ValueWarning(cells.k.name, cells.v.name)];
    }
    cells.k.tree := kTree;
    cells.v.tree := vTree;
    failure := None;
  }

  /** Trees are bound exactly when both names parse (the value after its fallback) and
      both types are orderable; then the key tree is that of the key's name. */
  lemma BoundOnlyWhenOrderable(kName: TypeName, vName: TypeName, parse: TypeParser)
    ensures var b := BindSpec(kName, vName, parse);
      (b.kTree.Some? <==> b.vTree.Some?)
      && (b.kTree.Some? <==>
           parse(kName.name).Some? && parse(ValueDescriptor(vName, parse)).Some?
           && CanOrder(parse(kName.name).value) && CanOrder(parse(ValueDescriptor(vName, parse)).value))
      && (b.kTree.Some? ==> b.kTree == parse(kName.name) && b.vTree == parse(ValueDescriptor(vName, parse)))
  {
  }

  /** A key name that does not parse ends the processing; a value name that does not parse
      is replaced by "String" with a warning. */
  lemma ParseFailures(kName: TypeName, vName: TypeName, parse: TypeParser)
    ensures parse(kName.name).None? ==>
      BindSpec(kName, vName, parse) == Bound(Some(UnparsableType(kName.name)), [], None, None)
    ensures parse(kName.name).Some? && parse(vName.name).None? ==>
      var b := BindSpec(kName, vName, parse);
      |b.warnings| >= 1 && b.warnings[0] == ValueTypeDefaulted(vName.name, "String")
      && (b.vTree.Some? ==> b.vTree == parse("String"))
  {
  }

  /** An unorderable value type is reported under the value type's own name. */
  lemma UnorderedValueReported(kName: TypeName, vName: TypeName, parse: TypeParser)
    requires parse(kName.name).Some? && CanOrder(parse(kName.name).value)
    requires parse(vName.name).Some? && !CanOrder(parse(vName.name).value)
    ensures BindSpec(kName, vName, parse) == Bound(None, [ValueUnordered(vName.name)], None, None)
  {
  }

  // ---------------------------------------------------------------------------------------
  // The whole preparation of one table

  /** What preparing a table ends with. */
  datatype Prepared = Prepared(failure: Option<Failure>, declares: Snapshot, kTree: Option<Ty>, vTree: Option<Ty>,
                               warnings: seq<Warning>, creations: nat)

  /** Reset, override, discovery and binding in sequence; the listing mode, which returns
      after discovery, is not part of it. */
  function Prepare(args: Args, open: Engine, parse: TypeParser): Prepared
  {
    var start := if args.schema.Some? then SchemaDeclares(args.schema.value, parse) else Success(Initial);
    match start
    case Failed(f) => Prepared(Some(f), Initial, None, None, [], 0)
    case Success(s) =>
      var d := Discover(args, open, 0, s);
      if d.failure.Some? then Prepared(d.failure, d.declares, None, None, [], d.creations)
      else
        var b := BindSpec(d.declares.kName, d.declares.vName, parse);
        Prepared(b.failure, d.declares, b.kTree, b.vTree, b.warnings, d.creations)
  }

  /** Lines 40-139 without the listing mode. */
  method PrepareTable(cells: Cells, args: Args, open: Engine, parse: TypeParser)
    returns (failure: Option<Failure>, warnings: seq<Warning>, creations: nat)
    requires cells.k != cells.v
    modifies cells.k, cells.v
    ensures var p := Prepare(args, open, parse);
      failure == p.failure && warnings == p.warnings && creations == p.creations
      && Snap(cells) == p.declares && cells.k.tree == p.kTree && cells.v.tree == p.vTree
  {
    ResetBindings(cells);
    warnings, creations := [], 0;
    if args.schema.Some? {
      failure := ApplySchema(cells, args.schema.value, parse);
      if failure.Some? {
        return;
      }
    }
    failure, creations := OpenTable(cells, args, open);
    if failure.Some? {
      return;
    }
    failure, warnings := BindTrees(cells, parse);
  }

  /** With an override, the bindings declare what the override says, whatever the engine
      answers. */
  lemma PrepareWithOverride(args: Args, open: Engine, parse: TypeParser)
    requires args.schema.Some? && SchemaDeclares(args.schema.value, parse).Success?
    ensures Prepare(args, open, parse).declares == SchemaDeclares(args.schema.value, parse).value
  {
    OverrideKeepsDeclares(args, open, 0, SchemaDeclares(args.schema.value, parse).value);
  }

  /** Without an override, a table redb stores is opened, and the bindings declare the
      stored names and widths. */
  lemma PrepareFromRedb(args: Args, stored: Snapshot, parse: TypeParser)
    requires args.schema.None? && Consistent(stored)
    ensures var p := Prepare(args, (n: nat, req: Snapshot) => RedbOpen(stored, req), parse);
      p.declares == stored && p.creations == 0 && (p.failure.None? || p.failure.value.UnparsableType?)
  {
    ConvergesFromReset(args, stored);
  }

  /** After a table is prepared, both adapters compare every pair of byte strings that
      decode under their tree without panicking. */
  lemma PreparedComparable(cells: Cells, args: Args, open: Engine, parse: TypeParser)
    requires cells.k.tree == Prepare(args, open, parse).kTree && cells.k.tree.Some?
    requires cells.v.tree == Prepare(args, open, parse).vTree
    ensures cells.v.tree.Some?
    ensures forall b: Bytes.Bytes, c: Bytes.Bytes :: cells.k.FromBytes(b).Ok? && cells.k.FromBytes(c).Ok? ==> cells.k.Compare(b, c).Ok?
    ensures forall b: Bytes.Bytes, c: Bytes.Bytes :: cells.v.FromBytes(b).Ok? && cells.v.FromBytes(c).Ok? ==> cells.v.Compare(b, c).Ok?
  {
    var p := Prepare(args, open, parse);
    var s := if args.schema.Some? then SchemaDeclares(args.schema.value, parse).value else Initial;
    var d := Discover(args, open, 0, s);
    BoundOnlyWhenOrderable(d.declares.kName, d.declares.vName, parse);
    forall b: Bytes.Bytes, c: Bytes.Bytes | cells.k.FromBytes(b).Ok? && cells.k.FromBytes(c).Ok?
      ensures cells.k.Compare(b, c).Ok?
    {
      CompareTotal(cells.k, b, c);
    }
    forall b: Bytes.Bytes, c: Bytes.Bytes | cells.v.FromBytes(b).Ok? && cells.v.FromBytes(c).Ok?
      ensures cells.v.Compare(b, c).Ok?
    {
      CompareTotal(cells.v, b, c);
    }
  }
}
