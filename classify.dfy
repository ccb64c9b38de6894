/**
 * `tag_asls` and `detect_complexity`: the feature classifier over the block
 * table, the behaviour classifier over the raw source, and the complexity
 * score.
 */
module Classify {
  import opened Text
  import opened Extractor

  datatype Option<T> = None | Some(value: T)

  /** The enum `Feature`; `Label` is each member's value. */
  datatype Feature = Start | OnStart | Reset | OnReset | Split | LoadRemoval | Startup | Update | Init | GameTime
  {
    function Label(): string
    {
      match this
      case Start => "Start"
      case OnStart => "On Start"
      case Reset => "Reset"
      case OnReset => "On Reset"
      case Split => "Split"
      case LoadRemoval => "Load Removal"
      case Startup => "Startup"
      case Update => "Update"
      case Init => "Init"
      case GameTime => "Game Time"
    }
  }

  /** The enum `Behaviour`; `Label` is each member's value. */
  datatype Behaviour = SignatureScanner | DetectsVersions | WritesMemory | MemoryWatcher | DebugOutput
                     | Comments | Settings | Functions | MemoryPages
  {
    function Label(): string
    {
      match this
      case SignatureScanner => "SignatureScanner"
      case DetectsVersions => "Detects Versions"
      case WritesMemory => "Writes Memory"
      case MemoryWatcher => "Memory Watcher"
      case DebugOutput => "Debug Output"
      case Comments => "Comments"
      case Settings => "Settings"
      case Functions => "Functions"
      case MemoryPages => "Memory Pages"
    }
  }

  /** Every feature has its own label. */
  lemma FeatureLabelsDistinct(f: Feature, g: Feature)
    ensures f.Label() == g.Label() <==> f == g
  {
  }

  /** Every behaviour has its own label. */
  lemma BehaviourLabelsDistinct(b: Behaviour, c: Behaviour)
    ensures b.Label() == c.Label() <==> b == c
  {
  }

  // ---------------------------------------------------------------------
  // Features
  // ---------------------------------------------------------------------

  /** `returns()`: the body is not a lone `return false`. */
  predicate Returns(body: string)
  {
    !(Contains(body, "return false") && Count(body, "return") == 1)
  }

  /** A body that is nothing but `return false;` is trivial. */
  lemma LoneReturnFalse(body: string)
    requires body == "return false;"
    ensures !Returns(body)
  {
    var pat := "return";
    assert OccursAt(body, "return false", 0);
    assert Contains(body, "return false");
    var rest := body[6..];
    assert body[..6] == pat;
    assert Count(body, pat) == 1 + Count(rest, pat);
    assert rest[..6][0] == ' ' && pat[0] == 'r';
    assert Count(rest, pat) == Count(rest[1..], pat);
    assert rest[1..][..6][0] == 'f';
    assert Count(rest[1..][1..], pat) == 0;
    assert Count(rest[1..], pat) == 0;
  }

  /** A body without `return false` is not trivial. */
  lemma ReturnTrue(body: string)
    requires body == "return true;"
    ensures Returns(body)
  {
    var pat := "return false";
    assert |pat| == 12 && |body| == 12;
    assert body[0..12][7] == 't' && pat[7] == 'f';
    assert body[0..0 + |pat|] != pat;
    assert FindFrom(body, pat, 1) == -1;
    assert FindFrom(body, pat, 0) == -1;
    assert !Contains(body, pat);
  }

  /**
   * A body whose first `return` is followed by a second, separate `return`
   * is never trivial, whether or not it holds a `return false`.
   */
  lemma SecondReturn(body: string, j: nat)
    requires Find(body, "return") != -1 && Find(body, "return") + 6 <= j
    requires OccursAt(body, "return", j)
    ensures Count(body, "return") >= 2 && Returns(body)
  {
    TwoOccurrences(body, "return", Find(body, "return"), j);
  }

  /** The names the `elif` chain tests together with `returns()`, and their feature. */
  function RuleFor(name: string): Option<Feature>
  {
    if name == "isLoading" then Some(LoadRemoval)
    else if name == "start" then Some(Start)
    else if name == "onStart" then Some(OnStart)
    else if name == "reset" then Some(Reset)
    else if name == "onReset" then Some(OnReset)
    else if name == "split" then Some(Split)
    else if name == "startup" then Some(Startup)
    else if name == "update" then Some(Update)
    else if name == "init" then Some(Init)
    else None
  }

  /** The block name each feature comes from. */
  function BlockName(f: Feature): string
  {
    match f
    case LoadRemoval => "isLoading"
    case Start => "start"
    case OnStart => "onStart"
    case Reset => "reset"
    case OnReset => "onReset"
    case Split => "split"
    case Startup => "startup"
    case Update => "update"
    case Init => "init"
    case GameTime => "gameTime"
  }

  /** One pass of the loop over `methods.items()`: the feature the entry adds, if any. */
  function FeatureOf(e: Entry): Option<Feature>
  {
    if |e.body| == 0 then None
    else if RuleFor(e.name).Some? && Returns(e.body) then RuleFor(e.name)
    else if e.name == "gameTime" then Some(GameTime)
    else None
  }

  /** The rule names are exactly the block names of the features other than GameTime. */
  lemma RuleForMeaning(name: string, f: Feature)
    ensures RuleFor(name) == Some(f) <==> f != GameTime && name == BlockName(f)
  {
  }

  /**
   * An entry adds feature `f` exactly when it is named after `f`, its body
   * is not empty, and (unless `f` is GameTime) its body is not a lone
   * `return false`.
   */
  lemma FeatureOfMeaning(e: Entry, f: Feature)
    ensures FeatureOf(e) == Some(f) <==>
      e.name == BlockName(f) && |e.body| > 0 && (f == GameTime || Returns(e.body))
  {
    RuleForMeaning(e.name, f);
    assert RuleFor("gameTime") == None;
    if RuleFor(e.name).Some? {
      RuleForMeaning(e.name, RuleFor(e.name).value);
    }
  }

  /** The features the loop appends, in table order, before the GameTime adjustment. */
  function Collect(t: seq<Entry>): seq<Feature>
  {
    if t == [] then []
    else Collect(t[..|t| - 1]) + (match FeatureOf(t[|t| - 1]) case Some(f) => [f] case None => [])
  }

  /** The position of the first `x` in `fs`. */
  function IndexOf(fs: seq<Feature>, x: Feature): (i: nat)
    requires x in fs
    ensures i < |fs| && fs[i] == x
    ensures forall m :: 0 <= m < i ==> fs[m] != x
  {
    if fs[0] == x then 0 else IndexOf(fs[1..], x) + 1
  }

  /** `features.remove(x)`: delete the first occurrence (Python raises when there is none). */
  function RemoveFirst(fs: seq<Feature>, x: Feature): seq<Feature>
    requires x in fs
  {
    var i := IndexOf(fs, x);
    fs[..i] + fs[i + 1..]
  }

  /** The list `tag_asls` stores as `asl['features']` for a block table. */
  function Features(t: seq<Entry>): seq<Feature>
  {
    var fs := Collect(t);
    if GameTime in fs && LoadRemoval in fs then RemoveFirst(fs, LoadRemoval) else fs
  }

  /** The feature half of `tag_asls` for one script. */
  method TagFeatures(methods: seq<Entry>) returns (features: seq<Feature>)
    ensures features == Features(methods)
  {
    features := [];
    var k := 0;
    while k < |methods|
      invariant 0 <= k <= |methods|
      invariant features == Collect(methods[..k])
    {
      var name, body := methods[k].name, methods[k].body;
      assert methods[..k + 1][..k] == methods[..k];
      if |body| == 0 {
      } else if name == "isLoading" && Returns(body) {
        features := features + [LoadRemoval];
      } else if name == "start" && Returns(body) {
        features := features + [Start];
      } else if name == "onStart" && Returns(body) {
        features := features + [OnStart];
      } else if name == "reset" && Returns(body) {
        features := features + [Reset];
      } else if name == "onReset" && Returns(body) {
        features := features + [OnReset];
      } else if name == "split" && Returns(body) {
        features := features + [Split];
      } else if name == "startup" && Returns(body) {
        features := features + [Startup];
      } else if name == "update" && Returns(body) {
        features := features + [Update];
      } else if name == "init" && Returns(body) {
        features := features + [Init];
      } else if name == "gameTime" {
        features := features + [GameTime];
      }
      k := k + 1;
    }
    assert methods[..k] == methods;
    if GameTime in features && LoadRemoval in features {
      features := RemoveFirst(features, LoadRemoval);
    }
  }

  predicate NoDuplicates(fs: seq<Feature>)
  {
    forall a, b :: 0 <= a < b < |fs| ==> fs[a] != fs[b]
  }

  /** A feature is collected exactly when some entry of the table adds it. */
  lemma {:induction false} CollectMembership(t: seq<Entry>, f: Feature)
    ensures f in Collect(t) <==> exists e :: e in t && FeatureOf(e) == Some(f)
    decreases |t|
  {
    if t != [] {
      var init := t[..|t| - 1];
      CollectMembership(init, f);
      assert t == init + [t[|t| - 1]];
    }
  }

  /** With distinct block names, no feature is collected twice. */
  lemma {:induction false} CollectNoDuplicates(t: seq<Entry>)
    requires DistinctNames(t)
    ensures NoDuplicates(Collect(t))
    decreases |t|
  {
    if t != [] {
      var init, last := t[..|t| - 1], t[|t| - 1];
      assert DistinctNames(init);
      CollectNoDuplicates(init);
      match FeatureOf(last)
      case None =>
      case Some(f) =>
        forall e | e in init ensures FeatureOf(e) != Some(f) {
          var a :| 0 <= a < |init| && init[a] == e;
          assert t[a] == e;
          FeatureOfMeaning(e, f);
          FeatureOfMeaning(last, f);
        }
        CollectMembership(init, f);
    }
  }

  /** Deleting position `i` of a list without repeats leaves the others, still without repeats. */
  lemma Deletion(fs: seq<Feature>, i: nat)
    requires i < |fs| && NoDuplicates(fs)
    ensures NoDuplicates(fs[..i] + fs[i + 1..])
    ensures fs[i] !in fs[..i] + fs[i + 1..]
    ensures forall g :: g != fs[i] ==> (g in fs[..i] + fs[i + 1..] <==> g in fs)
  {
    var r := fs[..i] + fs[i + 1..];
    forall a | 0 <= a < |r| ensures r[a] == fs[if a < i then a else a + 1] {
    }
    forall g | g != fs[i] && g in fs ensures g in r {
      var a :| 0 <= a < |fs| && fs[a] == g;
      assert r[if a < i then a else a - 1] == g;
    }
  }

  /**
   * The GameTime rule: for a dictionary (distinct names) the final list
   * never holds both GameTime and LoadRemoval, holds no feature twice, and
   * holds `f` exactly when some block adds it and it is not LoadRemoval
   * beside a GameTime.
   */
  lemma FeaturesMeaning(t: seq<Entry>, f: Feature)
    requires DistinctNames(t)
    ensures !(GameTime in Features(t) && LoadRemoval in Features(t))
    ensures NoDuplicates(Features(t))
    ensures f in Features(t) <==>
      (exists e :: e in t && FeatureOf(e) == Some(f))
      && !(f == LoadRemoval && exists e :: e in t && FeatureOf(e) == Some(GameTime))
  {
    CollectNoDuplicates(t);
    CollectMembership(t, f);
    CollectMembership(t, GameTime);
    GameTimeRule(Collect(t), f);
  }

  /** The GameTime adjustment on a collected list without repeats. */
  lemma GameTimeRule(fs: seq<Feature>, f: Feature)
    requires NoDuplicates(fs)
    ensures var r := if GameTime in fs && LoadRemoval in fs then RemoveFirst(fs, LoadRemoval) else fs;
      !(GameTime in r && LoadRemoval in r) && NoDuplicates(r)
      && (f in r <==> f in fs && !(f == LoadRemoval && GameTime in fs))
  {
    if GameTime in fs && LoadRemoval in fs {
      var i := IndexOf(fs, LoadRemoval);
      var r := fs[..i] + fs[i + 1..];
      assert RemoveFirst(fs, LoadRemoval) == r;
      Deletion(fs, i);
      assert GameTime in r && LoadRemoval !in r;
    }
  }

  lemma SubsetSize<T>(a: set<T>, b: set<T>)
    requires a <= b
    ensures |a| <= |b|
  {
    if a != {} {
      var x :| x in a;
      SubsetSize(a - {x}, b - {x});
    }
  }

  /** A list without repeats has as many distinct elements as positions. */
  lemma {:induction false} DistinctSize(fs: seq<Feature>)
    requires NoDuplicates(fs)
    ensures |set g | g in fs| == |fs|
    decreases |fs|
  {
    if fs != [] {
      var init := fs[..|fs| - 1];
      DistinctSize(init);
      assert (set g | g in fs) == (set g | g in init) + {fs[|fs| - 1]};
      assert fs[|fs| - 1] !in init;
    }
  }

  /** A feature list without repeats that never pairs GameTime with Load Removal has at most nine entries. */
  lemma NineAtMost(fs: seq<Feature>)
    requires NoDuplicates(fs) && !(GameTime in fs && LoadRemoval in fs)
    ensures |fs| <= 9
  {
    DistinctSize(fs);
    var s := set g | g in fs;
    var excluded := if GameTime in fs then LoadRemoval else GameTime;
    var all := {Start, OnStart, Reset, OnReset, Split, LoadRemoval, Startup, Update, Init, GameTime};
    assert s <= all - {excluded};
    assert |all| == 10;
    SubsetSize(s, all - {excluded});
  }

  /**
   * A script shows at most nine features, and its feature count is the
   * number of distinct features it shows.
   */
  lemma FeatureCountBound(t: seq<Entry>)
    requires DistinctNames(t)
    ensures |Features(t)| <= 9
    ensures |set f | f in Features(t)| == |Features(t)|
  {
    FeaturesMeaning(t, Start);
    NineAtMost(Features(t));
    DistinctSize(Features(t));
  }

  // ---------------------------------------------------------------------
  // Behaviours
  // ---------------------------------------------------------------------

  /** The dictionary `behaviour_searches`, in its insertion order. */
  const Markers: seq<(string, Behaviour)> := [
    ("SignatureScanner", SignatureScanner),
    ("version =", DetectsVersions),
    (".WriteBytes", WritesMemory),
    ("MemoryWatcher", MemoryWatcher),
    ("settings.Add", Settings),
    ("Func<", Functions),
    ("Action<", Functions),
    (".MemoryPages", MemoryPages)
  ]

  /** `[b]` when the marker was found. */
  function Pick(found: bool, b: Behaviour): seq<Behaviour>
  {
    if found then [b] else []
  }

  /** One behaviour per marker of `ms` found in `src`, in table order. */
  function BehavioursFrom(src: string, ms: seq<(string, Behaviour)>): seq<Behaviour>
  {
    if ms == [] then []
    else BehavioursFrom(src, ms[..|ms| - 1]) + Pick(Contains(src, ms[|ms| - 1].0), ms[|ms| - 1].1)
  }

  /** The list `tag_asls` stores as `asl['behaviours']` for a script's raw source. */
  function Behaviours(src: string): seq<Behaviour>
  {
    BehavioursFrom(src, Markers)
  }

  /** The behaviour half of `tag_asls` for one script. */
  method TagBehaviours(src: string) returns (behaviours: seq<Behaviour>)
    ensures behaviours == Behaviours(src)
  {
    behaviours := [];
    var k := 0;
    while k < |Markers|
      invariant 0 <= k <= |Markers|
      invariant behaviours == BehavioursFrom(src, Markers[..k])
    {
      var (search, behaviour) := Markers[k];
      assert Markers[..k + 1][..k] == Markers[..k];
      if Contains(src, search) {
        behaviours := behaviours + [behaviour];
      }
      k := k + 1;
    }
    assert Markers[..k] == Markers;
  }

  /** A behaviour is listed exactly when one of its markers occurs in the source. */
  lemma {:induction false} BehavioursFromMembership(src: string, ms: seq<(string, Behaviour)>, b: Behaviour)
    ensures b in BehavioursFrom(src, ms) <==> exists k :: 0 <= k < |ms| && ms[k].1 == b && Contains(src, ms[k].0)
    decreases |ms|
  {
    if ms != [] {
      var init := ms[..|ms| - 1];
      BehavioursFromMembership(src, init, b);
      if exists k :: 0 <= k < |init| && init[k].1 == b && Contains(src, init[k].0) {
        var k :| 0 <= k < |init| && init[k].1 == b && Contains(src, init[k].0);
        assert ms[k] == init[k];
      }
      forall k | 0 <= k < |ms| - 1 && ms[k].1 == b && Contains(src, ms[k].0)
        ensures exists k' :: 0 <= k' < |init| && init[k'].1 == b && Contains(src, init[k'].0)
      {
        assert init[k] == ms[k];
      }
    }
  }

  /** A behaviour no marker stands for is never listed. */
  lemma {:induction false} NoRow(src: string, ms: seq<(string, Behaviour)>, b: Behaviour)
    requires forall i :: 0 <= i < |ms| ==> ms[i].1 != b
    ensures multiset(BehavioursFrom(src, ms))[b] == 0
    decreases |ms|
  {
    if ms != [] {
      NoRow(src, ms[..|ms| - 1], b);
    }
  }

  /** A behaviour only marker `j` stands for is listed once if that marker occurs, else not at all. */
  lemma {:induction false} OneRow(src: string, ms: seq<(string, Behaviour)>, b: Behaviour, j: nat)
    requires j < |ms| && ms[j].1 == b
    requires forall i :: 0 <= i < |ms| && ms[i].1 == b ==> i == j
    ensures multiset(BehavioursFrom(src, ms))[b] == if Contains(src, ms[j].0) then 1 else 0
    decreases |ms|
  {
    var init := ms[..|ms| - 1];
    if j == |ms| - 1 {
      NoRow(src, init, b);
    } else {
      OneRow(src, init, b, j);
    }
  }

  /** A behaviour markers `j` and `k` stand for is listed once per marker that occurs. */
  lemma {:induction false} TwoRows(src: string, ms: seq<(string, Behaviour)>, b: Behaviour, j: nat, k: nat)
    requires j < k < |ms| && ms[j].1 == b && ms[k].1 == b
    requires forall i :: 0 <= i < |ms| && ms[i].1 == b ==> i == j || i == k
    ensures multiset(BehavioursFrom(src, ms))[b] ==
      (if Contains(src, ms[j].0) then 1 else 0) + (if Contains(src, ms[k].0) then 1 else 0)
    decreases |ms|
  {
    var init := ms[..|ms| - 1];
    if k == |ms| - 1 {
      OneRow(src, init, b, j);
    } else {
      TwoRows(src, init, b, j, k);
    }
  }

  /** Some row of the marker table stands for `b`. */
  predicate HasRow(b: Behaviour)
  {
    exists k :: 0 <= k < |Markers| && Markers[k].1 == b
  }

  /** What the marker table maps to: one row per behaviour except two for Functions and none for DebugOutput and Comments. */
  lemma MarkerRows()
    ensures forall k :: 0 <= k < |Markers| ==> Markers[k].1 != DebugOutput && Markers[k].1 != Comments
    ensures forall k :: 0 <= k < |Markers| && Markers[k].1 == Functions ==> k == 5 || k == 6
    ensures Markers[5] == ("Func<", Functions) && Markers[6] == ("Action<", Functions)
    ensures forall j, k :: 0 <= j < |Markers| && 0 <= k < |Markers| && Markers[j].1 == Markers[k].1 && Markers[j].1 != Functions ==> j == k
    ensures forall b :: b != DebugOutput && b != Comments ==> HasRow(b)
  {
    forall b | b != DebugOutput && b != Comments ensures HasRow(b) {
      var k := match b
        case SignatureScanner => 0
        case DetectsVersions => 1
        case WritesMemory => 2
        case MemoryWatcher => 3
        case Settings => 4
        case Functions => 5
        case MemoryPages => 7
        case _ => 0;
      assert Markers[k].1 == b;
    }
  }

  /**
   * Functions is listed once per marker `Func<` / `Action<` present (so up
   * to twice), every other behaviour at most once and exactly when its
   * marker is present, and DebugOutput and Comments never.
   */
  lemma BehavioursMeaning(src: string, b: Behaviour)
    ensures b in Behaviours(src) <==> exists k :: 0 <= k < |Markers| && Markers[k].1 == b && Contains(src, Markers[k].0)
    ensures multiset(Behaviours(src))[Functions] ==
      (if Contains(src, "Func<") then 1 else 0) + (if Contains(src, "Action<") then 1 else 0)
    ensures b != Functions ==> multiset(Behaviours(src))[b] <= 1
    ensures DebugOutput !in Behaviours(src) && Comments !in Behaviours(src)
  {
    MarkerRows();
    BehavioursFromMembership(src, Markers, b);
    TwoRows(src, Markers, Functions, 5, 6);
    NoRow(src, Markers, DebugOutput);
    NoRow(src, Markers, Comments);
    if b != Functions {
      if k :| 0 <= k < |Markers| && Markers[k].1 == b {
        OneRow(src, Markers, b, k);
      } else {
        NoRow(src, Markers, b);
      }
    }
  }

  // ---------------------------------------------------------------------
  // Complexity
  // ---------------------------------------------------------------------

  /** The dictionary `behaviour_points`. */
  const BehaviourPoints: map<Behaviour, nat> := map[
    SignatureScanner := 4,
    WritesMemory := 5,
    MemoryWatcher := 2,
    Settings := 1,
    Functions := 1,
    DetectsVersions := 2
  ]

  /** `behaviour_points.get(b, 0)`. */
  function Weight(b: Behaviour): nat
  {
    if b in BehaviourPoints then BehaviourPoints[b] else 0
  }

  function WeightSum(bs: seq<Behaviour>): nat
  {
    if bs == [] then 0 else WeightSum(bs[..|bs| - 1]) + Weight(bs[|bs| - 1])
  }

  /** The loop body of `detect_complexity`: one point per feature plus the behaviour weights. */
  method Points(features: seq<Feature>, behaviours: seq<Behaviour>) returns (points: int)
    ensures points == |features| + WeightSum(behaviours)
  {
    points := |features|;
    var k := 0;
    while k < |behaviours|
      invariant 0 <= k <= |behaviours|
      invariant points == |features| + WeightSum(behaviours[..k])
    {
      assert behaviours[..k + 1][..k] == behaviours[..k];
      points := points + Weight(behaviours[k]);
      k := k + 1;
    }
    assert behaviours[..k] == behaviours;
  }

  lemma {:induction false} WeightSumAppend(a: seq<Behaviour>, b: seq<Behaviour>)
    ensures WeightSum(a + b) == WeightSum(a) + WeightSum(b)
    decreases |b|
  {
    if b == [] {
      assert a + b == a;
    } else {
      WeightSumAppend(a, b[..|b| - 1]);
      var c := a + b;
      assert c[..|c| - 1] == a + b[..|b| - 1];
      assert c[|c| - 1] == b[|b| - 1];
    }
  }

  /** The most points a marker table can award: the weights of all its rows. */
  function MaxPoints(ms: seq<(string, Behaviour)>): nat
  {
    if ms == [] then 0 else MaxPoints(ms[..|ms| - 1]) + Weight(ms[|ms| - 1].1)
  }

  /** A source earns at most the weights of all the table's rows. */
  lemma {:induction false} PointsAtMostTable(src: string, ms: seq<(string, Behaviour)>)
    ensures WeightSum(BehavioursFrom(src, ms)) <= MaxPoints(ms)
    decreases |ms|
  {
    if ms != [] {
      var init := ms[..|ms| - 1];
      PointsAtMostTable(src, init);
      WeightSumAppend(BehavioursFrom(src, init), Pick(Contains(src, ms[|ms| - 1].0), ms[|ms| - 1].1));
    }
  }

  /** The rows of the marker table are worth 16 points together. */
  lemma MarkerPoints()
    ensures MaxPoints(Markers) == 16
  {
    var m := Markers;
    assert m[..1][..0] == [];
    assert MaxPoints(m[..1]) == 4;
    assert m[..2][..1] == m[..1];
    assert MaxPoints(m[..2]) == 6;
    assert m[..3][..2] == m[..2];
    assert MaxPoints(m[..3]) == 11;
    assert m[..4][..3] == m[..3];
    assert MaxPoints(m[..4]) == 13;
    assert m[..5][..4] == m[..4];
    assert MaxPoints(m[..5]) == 14;
    assert m[..6][..5] == m[..5];
    assert MaxPoints(m[..6]) == 15;
    assert m[..7][..6] == m[..6];
    assert MaxPoints(m[..7]) == 16;
    assert m[..8][..7] == m[..7];
    assert MaxPoints(m[..8]) == 16;
    assert m[..8] == m;
  }

  /** The behaviours of any source are worth at most 16 points. */
  lemma BehaviourPointsBound(src: string)
    ensures WeightSum(Behaviours(src)) <= 16
  {
    PointsAtMostTable(src, Markers);
    MarkerPoints();
  }

  /**
   * The score of any script: one point per feature plus the behaviour
   * points, at most 9 + 16.
   */
  lemma ScoreBound(src: string)
    ensures |Features(MethodTable(src))| + WeightSum(Behaviours(src)) <= 25
  {
    MethodTableWellFormed(src);
    FeatureCountBound(MethodTable(src));
    BehaviourPointsBound(src);
  }
}
