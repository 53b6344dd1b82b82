/**
 `PluginRegistry.match` of core/plugins_api/registry.py: which plugin gets a probed host.
 A plugin's answer to the probe is an input, `None` when it raises. Scores are reals.
 */
module PluginRegistry {
  import opened Prelude
  import opened Sorting

  /** `handle` tells two plugin objects apart. */
  datatype Plugin = Plugin(handle: int, key: string, priority: int)

  type Answers = Plugin -> Option<real>

  function Score(answers: Answers, p: Plugin): real {
    match answers(p)
    case Some(s) => s
    case None => -1.0
  }

  // ---- sorting the candidates ---------------------------------------------

  datatype Candidate = Candidate(negScore: real, negPriority: int, key: string, plugin: Plugin)

  function Entry(answers: Answers, p: Plugin): Candidate {
    Candidate(-Score(answers, p), -p.priority, p.key, p)
  }

  /** Tuple order, on the part that precedes the plugin object. */
  predicate Le(a: Candidate, b: Candidate) {
    || a.negScore < b.negScore
    || (a.negScore == b.negScore
        && (a.negPriority < b.negPriority || (a.negPriority == b.negPriority && LexLe(a.key, b.key))))
  }

  lemma LeIsPreorder()
    ensures TotalPreorder(Le)
  {
    forall a, b
      ensures Comparable(Le, a, b)
    {
      LexTotal(a.key, b.key);
    }
    forall a, b, c
      ensures Chains(Le, a, b, c)
    {
      LexIsPreorder();
      assert Chains(LexLe, a.key, b.key, c.key);
    }
  }

  /** Plugin objects have no order, so sorting two different ones that tie raises `TypeError`. */
  predicate Clash(a: Candidate, b: Candidate) {
    a.plugin != b.plugin && a.negScore == b.negScore && a.negPriority == b.negPriority && a.key == b.key
  }

  predicate Clashing(cs: seq<Candidate>) {
    exists i, j | 0 <= i < |cs| && 0 <= j < |cs| :: Clash(cs[i], cs[j])
  }

  function Chosen(cs: seq<Candidate>): Result<Option<Plugin>> {
    if cs == [] then Ok(None)
    else if Clashing(cs) then Err("TypeError")
    else
      SortKeepsLength(Le, cs);
      var best := Sort(Le, cs)[0];
      if best.negScore > 0.0 then Ok(None) else Ok(Some(best.plugin))
  }

  function Entries(answers: Answers, plugins: seq<Plugin>): seq<Candidate> {
    seq(|plugins|, i requires 0 <= i < |plugins| => Entry(answers, plugins[i]))
  }

  // ---- what the choice means ----------------------------------------------

  /** The plugin answered, and not with a negative score. */
  predicate Accepts(answers: Answers, p: Plugin) {
    answers(p).Some? && answers(p).value >= 0.0
  }

  /** Higher score, then higher priority, then smaller key. */
  predicate Beats(answers: Answers, p: Plugin, q: Plugin) {
    var s, t := Score(answers, p), Score(answers, q);
    || s > t
    || (s == t && (p.priority > q.priority || (p.priority == q.priority && p.key != q.key && LexLe(p.key, q.key))))
  }

  predicate Best(answers: Answers, plugins: seq<Plugin>, p: Plugin) {
    p in plugins && forall q | q in plugins :: q == p || Beats(answers, p, q)
  }

  predicate Ties(answers: Answers, p: Plugin, q: Plugin) {
    p != q && Score(answers, p) == Score(answers, q) && p.priority == q.priority && p.key == q.key
  }

  predicate AnyTie(answers: Answers, plugins: seq<Plugin>) {
    exists p, q | p in plugins && q in plugins :: Ties(answers, p, q)
  }

  predicate DistinctKeys(plugins: seq<Plugin>) {
    forall i, j | 0 <= i < j < |plugins| :: plugins[i].key != plugins[j].key
  }

  lemma DistinctKeysNeverTie(answers: Answers, plugins: seq<Plugin>)
    requires DistinctKeys(plugins)
    ensures !AnyTie(answers, plugins)
  {
  }

  lemma ClashIffTie(answers: Answers, plugins: seq<Plugin>)
    ensures Clashing(Entries(answers, plugins)) <==> AnyTie(answers, plugins)
  {
    var cs := Entries(answers, plugins);
    if AnyTie(answers, plugins) {
      var p, q :| p in plugins && q in plugins && Ties(answers, p, q);
      var i :| 0 <= i < |plugins| && plugins[i] == p;
      var j :| 0 <= j < |plugins| && plugins[j] == q;
      assert Clash(cs[i], cs[j]);
    }
    if i, j :| 0 <= i < |cs| && 0 <= j < |cs| && Clash(cs[i], cs[j]) {
      assert Ties(answers, plugins[i], plugins[j]);
    }
  }

  /** The head of the sorted candidates is the best plugin. */
  lemma HeadIsBest(answers: Answers, plugins: seq<Plugin>)
    requires plugins != [] && !AnyTie(answers, plugins)
    ensures Sort(Le, Entries(answers, plugins)) != []
    ensures var head := Sort(Le, Entries(answers, plugins))[0];
      head == Entry(answers, head.plugin) && Best(answers, plugins, head.plugin)
  {
    var cs := Entries(answers, plugins);
    var sorted := Sort(Le, cs);
    LeIsPreorder();
    SortSorts(Le, cs);
    SortKeepsLength(Le, cs);
    assert sorted[0] in multiset(cs);
    var p := sorted[0].plugin;
    forall q | q in plugins
      ensures q == p || Beats(answers, p, q)
    {
      var j :| 0 <= j < |plugins| && plugins[j] == q;
      assert cs[j] in multiset(sorted);
      FirstIsLeast(Le, sorted, cs[j]);
      assert !Ties(answers, p, q);
    }
  }

  lemma BestIsUnique(answers: Answers, plugins: seq<Plugin>, p: Plugin, q: Plugin)
    requires Best(answers, plugins, p) && Best(answers, plugins, q)
    ensures p == q
  {
    if p != q {
      LexTotal(p.key, q.key);
    }
  }

  /**
   The chosen plugin is the one that beats all others, provided its score is not negative;
   none is chosen exactly when there is no plugin or every score is negative; and choosing
   raises exactly when two plugins tie in score, priority and key.
   */
  lemma MatchIsBest(answers: Answers, plugins: seq<Plugin>)
    ensures var r := Chosen(Entries(answers, plugins));
      && (r.Err? <==> AnyTie(answers, plugins))
      && (forall p :: r == Ok(Some(p)) <==>
            !AnyTie(answers, plugins) && Best(answers, plugins, p) && Accepts(answers, p))
      && (r == Ok(None) <==>
            !AnyTie(answers, plugins) && forall p | p in plugins :: !Accepts(answers, p))
  {
    var cs := Entries(answers, plugins);
    var r := Chosen(cs);
    ClashIffTie(answers, plugins);
    if plugins == [] {
      assert cs == [];
    } else if !AnyTie(answers, plugins) {
      HeadIsBest(answers, plugins);
      var head := Sort(Le, cs)[0];
      assert cs != [];
      forall p
        ensures r == Ok(Some(p)) <==> Best(answers, plugins, p) && Accepts(answers, p)
      {
        if Best(answers, plugins, p) {
          BestIsUnique(answers, plugins, p, head.plugin);
        }
      }
    } else {
      assert cs != [];
    }
  }

  /** The order in which plugins were loaded never matters. */
  lemma MatchIgnoresLoadOrder(answers: Answers, a: seq<Plugin>, b: seq<Plugin>)
    requires multiset(a) == multiset(b)
    ensures Chosen(Entries(answers, a)) == Chosen(Entries(answers, b))
  {
    SameMembers(a, b);
    MatchIsBest(answers, a);
    MatchIsBest(answers, b);
    assert AnyTie(answers, a) <==> AnyTie(answers, b);
    var r := Chosen(Entries(answers, a));
    if r.Ok? && r.value.Some? {
      var p := r.value.value;
      assert Best(answers, b, p);
      assert Chosen(Entries(answers, b)) == Ok(Some(p));
    }
  }

  /** A plugin that raises counts as one that answers -1. */
  lemma RaisingIsMinusOne(answers: Answers, plugins: seq<Plugin>)
    ensures var tamed := (p: Plugin) => if answers(p).None? then Some(-1.0) else answers(p);
            Chosen(Entries(answers, plugins)) == Chosen(Entries(tamed, plugins))
  {
    var tamed := (p: Plugin) => if answers(p).None? then Some(-1.0) else answers(p);
    assert forall i | 0 <= i < |plugins| :: Entry(answers, plugins[i]) == Entry(tamed, plugins[i]);
    assert Entries(answers, plugins) == Entries(tamed, plugins);
  }

  lemma SameMembers(a: seq<Plugin>, b: seq<Plugin>)
    requires multiset(a) == multiset(b)
    ensures forall p :: p in a <==> p in b
  {
    assert forall p :: p in a <==> p in multiset(a);
    assert forall p :: p in b <==> p in multiset(b);
  }

  /**
   The answer is the plugin that beats all others, if its score is not negative; none exactly
   when all scores are negative or there is no plugin; an exception exactly on a full tie.
   */
  method Match(answers: Answers, plugins: seq<Plugin>) returns (r: Result<Option<Plugin>>)
    ensures r.Err? <==> AnyTie(answers, plugins)
    ensures forall p :: r == Ok(Some(p)) <==>
                          !AnyTie(answers, plugins) && Best(answers, plugins, p) && Accepts(answers, p)
    ensures r == Ok(None) <==>
              !AnyTie(answers, plugins) && forall p | p in plugins :: !Accepts(answers, p)
  {
    var candidates: seq<Candidate> := [];
    for i := 0 to |plugins|
      invariant candidates == Entries(answers, plugins[..i])
    {
      candidates := candidates + [Entry(answers, plugins[i])];
      assert plugins[..i + 1] == plugins[..i] + [plugins[i]];
    }
    assert plugins[..|plugins|] == plugins;
    MatchIsBest(answers, plugins);
    r := Chosen(candidates);
  }
}
