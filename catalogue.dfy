/**
 * The script records and the two passes over them, `tag_asls` and
 * `detect_complexity`, which extend every record in place.
 */
module Catalogue {
  import opened Text
  import opened Extractor
  import opened Classify

  /**
   * One autosplitter script record. `game` and `source` come from the
   * download step and never change; `loc` is computed from the source when
   * the record is built; `features`, `behaviours` and `complexity` are
   * written by the two passes.
   */
  class Asl {
    const game: string
    const source: string
    const loc: nat
    var features: seq<Feature>
    var behaviours: seq<Behaviour>
    var complexity: int

    constructor(game: string, source: string)
      ensures this.game == game && this.source == source
      ensures loc == LinesOfCode(source)
      ensures features == [] && behaviours == [] && complexity == 0
    {
      this.game := game;
      this.source := source;
      loc := |CodeLines(SplitLines(source))|;
      features := [];
      behaviours := [];
      complexity := 0;
    }

    /** The record carries the features of its block table and the behaviours of its source. */
    ghost predicate Tagged()
      reads this
    {
      features == Features(MethodTable(source)) && behaviours == Behaviours(source)
    }

    /** The record's complexity is its score. */
    ghost predicate Scored()
      reads this
    {
      complexity == |features| + WeightSum(behaviours)
    }

    /** One pass of the loop of `tag_asls`. */
    method Tag()
      modifies this
      ensures Tagged()
      ensures complexity == old(complexity)
    {
      var found := TagBehaviours(source);
      var methods := ExtractMethods(source);
      features := TagFeatures(methods);
      behaviours := found;
    }

    /** One pass of the loop of `detect_complexity`. */
    method Score()
      modifies this
      ensures Scored()
      ensures features == old(features) && behaviours == old(behaviours)
    {
      complexity := Points(features, behaviours);
    }
  }

  /**
   * `tag_asls`: every record gets the behaviours found in its raw source
   * and the features of its block table. Nothing else changes.
   */
  method TagAsls(asls: seq<Asl>)
    modifies set a | a in asls
    ensures forall a :: a in asls ==> a.Tagged()
    ensures forall a :: a in asls ==> a.complexity == old(a.complexity)
  {
    var k := 0;
    while k < |asls|
      invariant 0 <= k <= |asls|
      invariant forall a :: a in asls[..k] ==> a.Tagged()
      invariant forall a :: a in asls ==> a.complexity == old(a.complexity)
    {
      var a := asls[k];
      a.Tag();
      assert asls[..k + 1] == asls[..k] + [a];
      k := k + 1;
    }
    assert asls[..k] == asls;
  }

  /**
   * `detect_complexity`: every record's complexity becomes its score.
   * Features and behaviours are left as they are.
   */
  method DetectComplexity(asls: seq<Asl>)
    modifies set a | a in asls
    ensures forall a :: a in asls ==> a.Scored()
    ensures forall a :: a in asls ==> a.features == old(a.features) && a.behaviours == old(a.behaviours)
  {
    var k := 0;
    while k < |asls|
      invariant 0 <= k <= |asls|
      invariant forall m :: 0 <= m < k ==> asls[m].Scored()
      invariant forall a :: a in asls ==> a.features == old(a.features) && a.behaviours == old(a.behaviours)
    {
      asls[k].Score();
      k := k + 1;
    }
  }

  /** A tagged and scored record has a complexity between 0 and 25. */
  lemma ComplexityBound(a: Asl)
    requires a.Tagged() && a.Scored()
    ensures 0 <= a.complexity <= 25
  {
    ScoreBound(a.source);
  }

  /**
   * The main program's two passes: after tagging and scoring, every
   * record's complexity is the score of its own source, at most 25.
   */
  method Analyse(asls: seq<Asl>)
    modifies set a | a in asls
    ensures forall a :: a in asls ==> a.Tagged() && a.Scored()
    ensures forall a :: a in asls ==> 0 <= a.complexity <= 25
  {
    TagAsls(asls);
    DetectComplexity(asls);
    forall a | a in asls
      ensures 0 <= a.complexity <= 25
    {
      ComplexityBound(a);
    }
  }
}
