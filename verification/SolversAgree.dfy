/** The plain and the encrypted solver on one instance. */
module SolversAgree {
  import opened Wrappers
  import opened CostModel
  import opened PlainSearches
  import PredicateEngines
  import opened NumericDomains
  import EncryptedCosts
  import opened EncryptedSearches

  /**
   Both solvers, one after the other, on the same costs: whenever the encrypted one succeeds, they
   return the same assignment or both report that there is none, and with its suffix bound the
   encrypted solver visits the nodes of the plain one.
   */
  method SolveBoth(matrix: seq<TextRow>, text: string, engine: PredicateEngines.PredicateEngine,
      domain: NumericDomain, costs: seq<EncryptedCosts.CostRow>, threshold: int, session: string, bound: CostBound,
      ghost inst: Instance)
    returns (plain: Result<seq<int>, Status>, encrypted: Result<SolveResult, SolveError>,
      ghost plainNodes: seq<Assignment>, ghost nodes: seq<Assignment>)
    requires |matrix| < MAX_ROWS && Reads(matrix, text, inst) && Admitted(inst)
    requires engine.Valid() && domain.Representable() && domain.AcceptedByBackend() && ConfigRepresentable(bound)
    requires RequestHolds(engine.csp.key, domain, costs, threshold, inst)
    modifies engine, engine.csp
    ensures engine.Valid()
    ensures encrypted.Success? ==>
      && (plain.Success? <==> encrypted.value.feasible)
      && (plain.Success? ==> plain.value == encrypted.value.solution)
      && (bound.SuffixBound? ==> plainNodes == nodes)
  {
    hide RequestHolds, Instance.Valid, Instance.Solves, Reads, Admitted;
    var cost;
    ghost var incumbents, mode;
    plain, cost, plainNodes := OptimizePlain(matrix, text);
    encrypted, nodes, incumbents, mode :=
      EncryptedSearches.Solve(engine, domain, costs, threshold, session, bound, inst);
    if encrypted.Success? {
      inst.SolvesUnique(if plain.Success? then Some(plain.value) else None,
                        if encrypted.value.feasible then Some(encrypted.value.solution) else None);
    }
  }
}
