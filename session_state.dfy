/**
 * `slider_session_state_update` and its two callers: hyperparameter sliders
 * whose current values live in Streamlit's session state, a string-keyed map
 * that survives reruns. A selection change resets every slider to its
 * default; otherwise a stored value wins and a missing one is filled in from
 * the defaults.
 */
module SessionState {
  import opened Wrappers
  import Scoring

  /**
   * Where the resolver stands after some of the sliders: the session state so
   * far, the values gathered so far, and the slider whose default was missing
   * (Python's `KeyError`), after which nothing more happens.
   */
  datatype Resolution<V> = Resolution(state: map<string, V>, values: seq<V>, missing: Option<string>)

  /** One turn of the loop, for slider `name`. */
  function Step<V>(r: Resolution<V>, defaults: map<string, V>, changed: bool, name: string): Resolution<V>
  {
    if r.missing.Some? then r
    else if !changed && name in r.state then Resolution(r.state, r.values + [r.state[name]], None)
    else if name in defaults then Resolution(r.state[name := defaults[name]], r.values + [defaults[name]], None)
    else Resolution(r.state, r.values, Some(name))
  }

  /** The loop over `sliders`, starting from session state `state`. */
  function Resolve<V>(state: map<string, V>, defaults: map<string, V>, changed: bool, sliders: seq<string>): Resolution<V>
  {
    if sliders == [] then Resolution(state, [], None)
    else Step(Resolve(state, defaults, changed, sliders[..|sliders| - 1]), defaults, changed, sliders[|sliders| - 1])
  }

  /** A slider has to be read from the defaults: on a selection change, or when the session state lacks it. */
  predicate NeedsDefault<V>(state: map<string, V>, changed: bool, name: string)
  {
    changed || name !in state
  }

  /** Once a default was missing, further sliders change nothing. */
  lemma {:induction false} FailureIsFinal<V>(state: map<string, V>, defaults: map<string, V>, changed: bool,
                                              sliders: seq<string>, i: nat)
    requires i <= |sliders|
    requires Resolve(state, defaults, changed, sliders[..i]).missing.Some?
    ensures Resolve(state, defaults, changed, sliders) == Resolve(state, defaults, changed, sliders[..i])
    decreases |sliders| - i
  {
    if i < |sliders| {
      assert sliders[..i + 1][..i] == sliders[..i];
      FailureIsFinal(state, defaults, changed, sliders, i + 1);
    } else {
      assert sliders[..i] == sliders;
    }
  }

  /**
   * Without a missing default the resolver fails at no slider; the new state
   * holds every slider and every old key, a slider that needed its default
   * holds it, and every other key keeps its old value.
   */
  lemma {:induction false} ResolvedState<V>(state: map<string, V>, defaults: map<string, V>, changed: bool,
                                             sliders: seq<string>)
    requires Resolve(state, defaults, changed, sliders).missing.None?
    ensures var s := Resolve(state, defaults, changed, sliders).state;
      && (forall k :: k in s <==> k in state || k in sliders)
      && (forall k :: k in sliders && NeedsDefault(state, changed, k) ==> k in defaults && s[k] == defaults[k])
      && (forall k :: k in state && !(k in sliders && NeedsDefault(state, changed, k)) ==> s[k] == state[k])
  {
    if sliders != [] {
      var init, name := sliders[..|sliders| - 1], sliders[|sliders| - 1];
      assert sliders == init + [name];
      ResolvedState(state, defaults, changed, init);
      var s0 := Resolve(state, defaults, changed, init).state;
      var s := Resolve(state, defaults, changed, sliders).state;
      forall k | k in sliders && NeedsDefault(state, changed, k) ensures k in defaults && s[k] == defaults[k] {
        if k != name {
          assert k in init;
        } else if !(changed || name !in s0) {
          // Not changed, `name` absent from the old state and yet present: an earlier slider wrote it.
          assert name in init;
        }
      }
    }
  }

  /** The gathered values: one per slider, in slider order, each the value the new state holds for it. */
  lemma {:induction false} ResolvedValues<V>(state: map<string, V>, defaults: map<string, V>, changed: bool,
                                              sliders: seq<string>)
    requires Resolve(state, defaults, changed, sliders).missing.None?
    ensures var r := Resolve(state, defaults, changed, sliders);
      && |r.values| == |sliders|
      && forall i :: 0 <= i < |sliders| ==> sliders[i] in r.state && r.values[i] == r.state[sliders[i]]
  {
    if sliders != [] {
      var init, name := sliders[..|sliders| - 1], sliders[|sliders| - 1];
      ResolvedValues(state, defaults, changed, init);
      ResolvedState(state, defaults, changed, init);
      var r0 := Resolve(state, defaults, changed, init);
      var r := Resolve(state, defaults, changed, sliders);
      forall i | 0 <= i < |init| ensures r.state[init[i]] == r0.state[init[i]] {
        // An earlier slider is in `r0.state`; the last step only writes `name` and then, when
        // it may overwrite, with the same default an earlier turn stored.
        assert init[i] in init;
        if init[i] == name && (changed || name !in r0.state) {
          assert name in init && NeedsDefault(state, changed, name);
        }
      }
    }
  }

  /** The resolver fails exactly when some slider needs a default that is missing, and names the first such slider. */
  lemma {:induction false} ResolveFails<V>(state: map<string, V>, defaults: map<string, V>, changed: bool,
                                            sliders: seq<string>)
    ensures var r := Resolve(state, defaults, changed, sliders);
      && (r.missing.None? <==>
            forall i :: 0 <= i < |sliders| && NeedsDefault(state, changed, sliders[i]) ==> sliders[i] in defaults)
      && (r.missing.Some? ==>
            exists i :: (0 <= i < |sliders| && sliders[i] == r.missing.value
              && NeedsDefault(state, changed, sliders[i]) && sliders[i] !in defaults
              && forall j :: 0 <= j < i && NeedsDefault(state, changed, sliders[j]) ==> sliders[j] in defaults))
  {
    if sliders != [] {
      var init, name := sliders[..|sliders| - 1], sliders[|sliders| - 1];
      ResolveFails(state, defaults, changed, init);
      var r0 := Resolve(state, defaults, changed, init);
      var r := Resolve(state, defaults, changed, sliders);
      assert forall i :: 0 <= i < |init| ==> sliders[i] == init[i];
      if r0.missing.None? {
        ResolvedState(state, defaults, changed, init);
        if r.missing.Some? {
          assert r.missing.value == name && name !in defaults;
          assert NeedsDefault(state, changed, name) by {
            assert changed || name !in r0.state;
            assert forall k :: k in state ==> k in r0.state;
          }
          assert sliders[|sliders| - 1] == name;
        } else {
          assert !NeedsDefault(state, changed, name) || name in defaults by {
            if changed || name !in r0.state { assert name in defaults; }
          }
        }
      }
    }
  }

  /** After a selection change the values and the state are the defaults. */
  lemma SelectionChangeResets<V>(state: map<string, V>, defaults: map<string, V>, sliders: seq<string>)
    requires forall i :: 0 <= i < |sliders| ==> sliders[i] in defaults
    ensures var r := Resolve(state, defaults, true, sliders);
      && r.missing.None?
      && |r.values| == |sliders|
      && forall i :: 0 <= i < |sliders| ==>
           r.values[i] == defaults[sliders[i]] && sliders[i] in r.state && r.state[sliders[i]] == defaults[sliders[i]]
  {
    ResolveFails(state, defaults, true, sliders);
    ResolvedValues(state, defaults, true, sliders);
    ResolvedState(state, defaults, true, sliders);
    var r := Resolve(state, defaults, true, sliders);
    forall i | 0 <= i < |sliders| ensures r.state[sliders[i]] == defaults[sliders[i]] {
      assert sliders[i] in sliders;
    }
  }

  /** Without a selection change a stored value is kept and a missing one takes its default. */
  lemma KeepStoredValues<V>(state: map<string, V>, defaults: map<string, V>, sliders: seq<string>)
    requires Resolve(state, defaults, false, sliders).missing.None?
    ensures var r := Resolve(state, defaults, false, sliders);
      |r.values| == |sliders| && forall i :: 0 <= i < |sliders| ==>
        && (sliders[i] in state ==> r.values[i] == state[sliders[i]])
        && (sliders[i] !in state ==> sliders[i] in defaults && r.values[i] == defaults[sliders[i]])
  {
    ResolvedValues(state, defaults, false, sliders);
    ResolvedState(state, defaults, false, sliders);
    var r := Resolve(state, defaults, false, sliders);
    forall i | 0 <= i < |sliders| ensures sliders[i] in sliders { }
  }

  /** Keys that are no slider are untouched, whether or not the resolver fails. */
  lemma {:induction false} OtherKeysUntouched<V>(state: map<string, V>, defaults: map<string, V>, changed: bool,
                                                  sliders: seq<string>, k: string)
    requires k !in sliders
    ensures var s := Resolve(state, defaults, changed, sliders).state;
      (k in s <==> k in state) && (k in state ==> s[k] == state[k])
  {
    if sliders != [] {
      var init := sliders[..|sliders| - 1];
      forall i | 0 <= i < |init| ensures init[i] != k { assert init[i] == sliders[i]; }
      OtherKeysUntouched(state, defaults, changed, init, k);
    }
  }

  /** The Streamlit session state, as far as the sliders are concerned. */
  class SessionState<V> {
    var entries: map<string, V>

    constructor(initial: map<string, V>)
      ensures entries == initial
    {
      entries := initial;
    }

    /**
     * `slider_session_state_update`: the slider values in slider order, and
     * the session state updated as the loop writes it; a missing default is
     * the `KeyError` naming that slider, with the writes before it kept.
     */
    method SliderSessionStateUpdate(sliders: seq<string>, defaults: map<string, V>, selectionChanged: bool)
      returns (r: Result<seq<V>, string>)
      modifies this
      ensures var res := Resolve(old(entries), defaults, selectionChanged, sliders);
        && entries == res.state
        && (res.missing.None? ==> r == Success(res.values))
        && (res.missing.Some? ==> r == Failure(res.missing.value))
    {
      var values: seq<V> := [];
      var i := 0;
      while i < |sliders|
        invariant 0 <= i <= |sliders|
        invariant Resolve(old(entries), defaults, selectionChanged, sliders[..i]) == Resolution(entries, values, None)
      {
        var name := sliders[i];
        assert sliders[..i + 1][..i] == sliders[..i];
        if selectionChanged || name !in entries {
          if name !in defaults {
            FailureIsFinal(old(entries), defaults, selectionChanged, sliders, i + 1);
            return Failure(name);
          }
          entries := entries[name := defaults[name]];
          values := values + [defaults[name]];
        } else {
          values := values + [entries[name]];
        }
        i := i + 1;
      }
      assert sliders[..i] == sliders;
      return Success(values);
    }
  }

  // ---- the two callers ----

  /** `self.data_choice`: the data set picked in the dashboard. */
  datatype DataChoice = Iris | Digits

  const TsneSliders: seq<string> := ["learning_rate", "perplexity", "early_exaggeration"]
  const DbscanSliders: seq<string> := ["eps", "min_samples"]

  /** The t-SNE defaults of `calculate_tsne_embedding`. */
  function TsneDefaults(choice: DataChoice): (m: map<string, real>)
    ensures forall i :: 0 <= i < |TsneSliders| ==> TsneSliders[i] in m
  {
    match choice
    case Digits => map["learning_rate" := 40.0, "perplexity" := 47.0, "early_exaggeration" := 6.0]
    case Iris => map["learning_rate" := 73.0, "perplexity" := 5.0, "early_exaggeration" := 35.0]
  }

  /** The DBSCAN defaults of `calculate_tree_clusters`. */
  function DbscanDefaults(choice: DataChoice): (m: map<string, real>)
    ensures forall i :: 0 <= i < |DbscanSliders| ==> DbscanSliders[i] in m
  {
    match choice
    case Digits => map["eps" := 0.75, "min_samples" := 2.0]
    case Iris => map["eps" := 0.12, "min_samples" := 2.0]
  }

  /** The two call sites never raise `KeyError`, whatever the session state holds. */
  lemma CallersNeverMissDefaults(state: map<string, real>, choice: DataChoice, changed: bool)
    ensures Resolve(state, TsneDefaults(choice), changed, TsneSliders).missing.None?
    ensures Resolve(state, DbscanDefaults(choice), changed, DbscanSliders).missing.None?
  {
    ResolveFails(state, TsneDefaults(choice), changed, TsneSliders);
    ResolveFails(state, DbscanDefaults(choice), changed, DbscanSliders);
  }

  /** The t-SNE settings: learning rate, clamped perplexity, early exaggeration. */
  datatype TsneSettings = TsneSettings(learningRate: real, perplexity: real, earlyExaggeration: real)

  /**
   * The slider part of `calculate_tsne_embedding`: resolve the three sliders
   * and lower the perplexity to `n_estimators - 1` when it exceeds the forest size.
   */
  method ResolveTsneSettings(session: SessionState<real>, choice: DataChoice, changed: bool, nEstimators: int)
    returns (settings: TsneSettings)
    modifies session
    ensures var r := Resolve(old(session.entries), TsneDefaults(choice), changed, TsneSliders);
      && session.entries == r.state
      && |r.values| == 3
      && settings == TsneSettings(r.values[0], Scoring.ClampPerplexityAsWritten(nEstimators, r.values[1]), r.values[2])
  {
    CallersNeverMissDefaults(session.entries, choice, changed);
    ResolvedValues(session.entries, TsneDefaults(choice), changed, TsneSliders);
    var r := session.SliderSessionStateUpdate(TsneSliders, TsneDefaults(choice), changed);
    var values := r.value;
    settings := TsneSettings(values[0], Scoring.ClampPerplexityAsWritten(nEstimators, values[1]), values[2]);
  }

  /** The slider part of `calculate_tree_clusters`: `eps` and `min_samples`. */
  method ResolveDbscanSettings(session: SessionState<real>, choice: DataChoice, changed: bool)
    returns (eps: real, minSamples: real)
    modifies session
    ensures var r := Resolve(old(session.entries), DbscanDefaults(choice), changed, DbscanSliders);
      && session.entries == r.state
      && |r.values| == 2
      && eps == r.values[0] && minSamples == r.values[1]
  {
    CallersNeverMissDefaults(session.entries, choice, changed);
    ResolvedValues(session.entries, DbscanDefaults(choice), changed, DbscanSliders);
    var r := session.SliderSessionStateUpdate(DbscanSliders, DbscanDefaults(choice), changed);
    var values := r.value;
    eps, minSamples := values[0], values[1];
  }

  /** On a fresh selection of the digits the t-SNE sliders read 40, 47 and 6. */
  lemma DigitsSelectionTsneDefaults(state: map<string, real>)
    ensures Resolve(state, TsneDefaults(Digits), true, TsneSliders).values == [40.0, 47.0, 6.0]
  {
    SelectionChangeResets(state, TsneDefaults(Digits), TsneSliders);
  }

  /**
   * With 47 trees, a fresh selection of the digits data sets the perplexity
   * slider to 47; the clamp keeps it, and t-SNE refuses a perplexity equal to
   * the number of samples.
   */
  lemma DigitsWith47TreesKeepsRefusedPerplexity(state: map<string, real>)
    ensures var r := Resolve(state, TsneDefaults(Digits), true, TsneSliders);
      && |r.values| == 3
      && Scoring.ClampPerplexityAsWritten(47, r.values[1]) == 47.0
      && !Scoring.TsneAccepts(47, Scoring.ClampPerplexityAsWritten(47, r.values[1]))
  {
    DigitsSelectionTsneDefaults(state);
  }
}
