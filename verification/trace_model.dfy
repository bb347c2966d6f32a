/**
 * The two inputs of ts-rank (the compiler's trace events and its type catalog) and the metric that
 * pairs a declared symbol with the structural type-relation check that measured it.
 */
module TraceModel {

  datatype Option<T> = None | Some(value: T)

  /**
   * A trace event. Only `structuredTypeRelatedTo` checks matter here; for them `dur` is the elapsed
   * time in the trace's unit and `sourceId`/`targetId` are the `args` naming the two related types.
   */
  datatype TraceEvent = TraceEvent(cat: string, name: string, dur: nat, sourceId: int, targetId: int)

  datatype CodePos = CodePos(line: int, character: int)

  datatype Declaration = Declaration(path: string, start: CodePos, end: CodePos)

  /**
   * A catalog entry. `Nameless` is every entry without a `symbolName` field: intrinsic types and type
   * entries that carry neither name. The extraction skips them. `Symbol` is an entry with a
   * `symbolName`, maybe with a declaration.
   */
  datatype CatalogEntry =
    | Nameless(id: int)
    | Symbol(id: int, symbolName: string, firstDeclaration: Option<Declaration>)

  /** A symbol whose `firstDeclaration` is present. */
  datatype DeclaredSymbol = DeclaredSymbol(id: int, symbolName: string, firstDeclaration: Declaration)

  datatype Metric = Metric(symbol: DeclaredSymbol, check: TraceEvent, isNodeModule: bool)

  const StructuredTypeRelatedTo: string := "structuredTypeRelatedTo"

  /** The directory marker that makes a declaration a dependency's. */
  const NodeModulesMarker: string := "/node_modules"

  function PathOf(m: Metric): string
  {
    m.symbol.firstDeclaration.path
  }

  function Dur(m: Metric): nat
  {
    m.check.dur
  }

  /** The catalog entry a metric was made from. */
  function EntryOf(m: Metric): CatalogEntry
  {
    Symbol(m.symbol.id, m.symbol.symbolName, Some(m.symbol.firstDeclaration))
  }

  /** `String.prototype.includes`, scanning for `sub` from the left. */
  function Contains(s: string, sub: string): bool
    decreases |s|
  {
    if |sub| <= |s| && s[..|sub|] == sub then true
    else if s == [] then false
    else Contains(s[1..], sub)
  }

  /** `sub` occurs in `s` starting at position `i`. */
  ghost predicate OccursAt(s: string, sub: string, i: int)
  {
    0 <= i && i + |sub| <= |s| && s[i..i + |sub|] == sub
  }

  lemma {:induction false} ContainsIffOccurs(s: string, sub: string)
    ensures Contains(s, sub) <==> exists i :: OccursAt(s, sub, i)
  {
    if Contains(s, sub) {
      var i := ContainsWitness(s, sub);
    } else {
      forall i | OccursAt(s, sub, i) ensures false {
        OccursContains(s, sub, i);
      }
    }
  }

  /** Where the left-to-right scan finds `sub`. */
  lemma {:induction false} ContainsWitness(s: string, sub: string) returns (i: int)
    requires Contains(s, sub)
    ensures OccursAt(s, sub, i)
    decreases |s|
  {
    if |sub| <= |s| && s[..|sub|] == sub {
      i := 0;
      assert s[0..|sub|] == s[..|sub|];
    } else {
      var j := ContainsWitness(s[1..], sub);
      i := j + 1;
      assert s[i..i + |sub|] == s[1..][j..j + |sub|];
    }
  }

  /** An occurrence anywhere is found by the scan. */
  lemma {:induction false} OccursContains(s: string, sub: string, i: int)
    requires OccursAt(s, sub, i)
    ensures Contains(s, sub)
    decreases i
  {
    if i == 0 {
      assert s[..|sub|] == s[0..|sub|];
    } else if !(|sub| <= |s| && s[..|sub|] == sub) {
      assert s[1..][i - 1..i - 1 + |sub|] == s[i..i + |sub|];
      OccursContains(s[1..], sub, i - 1);
    }
  }

  /** `path.includes('/node_modules')`. */
  function IsNodeModulePath(path: string): bool
  {
    Contains(path, NodeModulesMarker)
  }

  /** The metric's flag agrees with its declaration path. */
  predicate FlagConsistent(m: Metric)
  {
    m.isNodeModule == IsNodeModulePath(PathOf(m))
  }
}
