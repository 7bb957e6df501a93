/**
 * The symbol resolver at its boundary with the reader: a generation counter
 * and the modules registered under each generation. How an instruction
 * pointer is turned into frames (segment lookup, debug information,
 * inlining) is not part of this model: it is a function `lookup` of the
 * modules of one generation, supplied by the caller.
 */
module SymbolResolvers {
  import opened Wrappers
  import opened Records

  /** One `addSegments` call: a module's file, base address and segments, under the generation then current. */
  datatype LoadedModule = LoadedModule(generation: nat, filename: string, baseAddress: Address, segments: seq<Segment>)

  datatype SymbolResolver = SymbolResolver(generation: nat, modules: seq<LoadedModule>)

  type Lookup = (seq<LoadedModule>, Address) -> Option<seq<NativeFrame>>

  const InitialResolver: SymbolResolver := SymbolResolver(0, [])

  /** No module is registered under a generation that has not started yet. */
  ghost predicate Valid(r: SymbolResolver)
  {
    forall i :: 0 <= i < |r.modules| ==> r.modules[i].generation <= r.generation
  }

  /** The modules registered under generation `g`, in registration order. */
  function ModulesOf(modules: seq<LoadedModule>, g: nat): seq<LoadedModule>
  {
    if modules == [] then []
    else
      var last := modules[|modules| - 1];
      ModulesOf(modules[..|modules| - 1], g) + (if last.generation == g then [last] else [])
  }

  function SegmentsAt(r: SymbolResolver, g: nat): seq<LoadedModule>
  {
    ModulesOf(r.modules, g)
  }

  lemma {:induction false} ModulesOfAbsent(modules: seq<LoadedModule>, g: nat)
    requires forall i :: 0 <= i < |modules| ==> modules[i].generation < g
    ensures ModulesOf(modules, g) == []
  {
    if modules != [] {
      ModulesOfAbsent(modules[..|modules| - 1], g);
    }
  }

  /**
   * `clearSegments`: a new generation starts with no modules, and what was
   * registered under every earlier generation is kept as it was.
   */
  function ClearSegments(r: SymbolResolver): (r2: SymbolResolver)
    requires Valid(r)
    ensures Valid(r2)
    ensures r2.generation == r.generation + 1
    ensures SegmentsAt(r2, r2.generation) == []
    ensures forall g: nat :: g <= r.generation ==> SegmentsAt(r2, g) == SegmentsAt(r, g)
  {
    var r2 := SymbolResolver(r.generation + 1, r.modules);
    ModulesOfAbsent(r.modules, r2.generation);
    r2
  }

  /**
   * `addSegments`: one module is registered under the current generation,
   * after those already there, and no other generation changes.
   */
  function AddSegments(r: SymbolResolver, filename: string, addr: Address, segments: seq<Segment>): (r2: SymbolResolver)
    requires Valid(r)
    ensures Valid(r2)
    ensures r2.generation == r.generation
    ensures SegmentsAt(r2, r.generation) == SegmentsAt(r, r.generation) + [LoadedModule(r.generation, filename, addr, segments)]
    ensures forall g: nat :: g != r.generation ==> SegmentsAt(r2, g) == SegmentsAt(r, g)
  {
    var m := LoadedModule(r.generation, filename, addr, segments);
    var r2 := SymbolResolver(r.generation, r.modules + [m]);
    assert r2.modules[..|r2.modules| - 1] == r.modules;
    r2
  }

  /** `resolve(ip, generation)`: looks `ip` up among the modules of the generation asked for, not the current one. */
  function Resolve(r: SymbolResolver, lookup: Lookup, ip: Address, generation: nat): Option<seq<NativeFrame>>
  {
    lookup(SegmentsAt(r, generation), ip)
  }

  /**
   * Resolution against a past generation is unaffected by a later memory-map
   * change and by later registrations.
   */
  lemma ResolvePastGenerationStable(r: SymbolResolver, lookup: Lookup, ip: Address, g: nat,
                                    filename: string, addr: Address, segments: seq<Segment>)
    requires Valid(r) && g < r.generation
    ensures Resolve(ClearSegments(r), lookup, ip, g) == Resolve(r, lookup, ip, g)
    ensures Resolve(AddSegments(r, filename, addr, segments), lookup, ip, g) == Resolve(r, lookup, ip, g)
  {
  }
}
