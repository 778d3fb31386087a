/** Core options (core_options.c): each option is parsed from a libretro
    variable whose value reads `"Description; a|b|c"`, remembers which value is
    selected, and the manager records whether the user changed anything since
    the core last asked. The configuration file is a key/value map. */
module CoreOptions {
  import opened Wrappers
  import opened Text
  import opened Machine

  datatype CoreOption = CoreOption(key: string, desc: string, vals: seq<string>, index: nat)

  datatype Manager = Manager(opts: seq<CoreOption>, updated: bool, conf: map<string, string>)

  /** A libretro variable; `None` stands for a NULL pointer. */
  datatype Variable = Variable(key: Option<string>, value: Option<string>)

  /** Every option's selection indexes its value list. */
  predicate Valid(m: Manager)
  {
    forall i :: 0 <= i < |m.opts| ==> m.opts[i].index < |m.opts[i].vals|
  }

  /** `parse_variable`: the description ends at the first `"; "`, the values
      are the rest split on `'|'`, and a value stored in the configuration
      selects its first position (otherwise the selection stays 0). */
  function ParseVariable(conf: map<string, string>, key: string, value: string): (r: Option<CoreOption>)
    ensures r.None? <==> Find(value, "; ").None?
    ensures r.Some? ==> r.value.key == key && At(value, |r.value.desc|, "; ") &&
                        r.value.desc == value[..|r.value.desc|] &&
                        forall j :: 0 <= j < |r.value.desc| ==> !At(value, j, "; ")
    ensures r.Some? ==> r.value.vals == Split(value[|r.value.desc| + 2..], '|')
    ensures r.Some? && key in conf && conf[key] in r.value.vals ==>
              r.value.index < |r.value.vals| && r.value.vals[r.value.index] == conf[key] &&
              forall j :: 0 <= j < r.value.index ==> r.value.vals[j] != conf[key]
    ensures r.Some? && (key !in conf || conf[key] !in r.value.vals) ==> r.value.index == 0
  {
    match Find(value, "; ")
    case None => None
    case Some(p) =>
      var vals := Split(value[p + 2..], '|');
      var index := if key in conf then (match IndexOf(vals, conf[key]) case Some(i) => i case None => 0) else 0;
      Some(CoreOption(key, value[..p], vals, index))
  }

  /** The text a core declares for an option is read back as declared. */
  lemma ParseDeclared(key: string, desc: string, vals: seq<string>)
    requires forall j :: 0 <= j <= |desc| ==> !At(desc, j, "; ")
    requires forall i :: 0 <= i < |vals| ==> Token(vals[i], '|')
    ensures ParseVariable(map[], key, desc + "; " + Join(vals, '|')) == Some(CoreOption(key, desc, vals, 0))
  {
    var tail := Join(vals, '|');
    var value := desc + "; " + tail;
    DescriptionEnds(desc, tail);
    assert ParseVariable(map[], key, value) ==
           Some(CoreOption(key, value[..|desc|], Split(value[|desc| + 2..], '|'), 0));
    assert value[..|desc|] == desc && value[|desc| + 2..] == tail;
    SplitJoin(vals, '|');
  }

  /** A description without `"; "` ends at the separator that follows it. */
  lemma DescriptionEnds(desc: string, tail: string)
    requires forall j :: 0 <= j <= |desc| ==> !At(desc, j, "; ")
    ensures Find(desc + "; " + tail, "; ") == Some(|desc|)
  {
    var value := desc + "; " + tail;
    assert value[|desc|..|desc| + 2] == "; ";
    forall j | 0 <= j < |desc| ensures !At(value, j, "; ") {
      NoMatchInDesc(desc, tail, j);
    }
    FindFirst(value, "; ", |desc|);
  }

  lemma NoMatchInDesc(desc: string, tail: string, j: nat)
    requires j < |desc| && !At(desc, j, "; ")
    ensures !At(desc + "; " + tail, j, "; ")
  {
    var v := desc + "; " + tail;
    if j + 1 < |desc| {
      assert desc[j..j + 2] == [desc[j], desc[j + 1]];
      assert v[j..j + 2] == [desc[j], desc[j + 1]];
    } else {
      assert v[j..j + 2] == [desc[j], ';'];
    }
  }

  /** The first occurrence is where `strstr` stops. */
  lemma FindFirst(s: string, pat: string, p: nat)
    requires At(s, p, pat)
    requires forall j :: 0 <= j < p ==> !At(s, j, pat)
    ensures Find(s, pat) == Some(p)
  {
  }

  /** How many variables precede the first one with a NULL key or value. */
  function Count(vars: seq<Variable>): (n: nat)
    ensures n <= |vars|
    ensures forall i :: 0 <= i < n ==> vars[i].key.Some? && vars[i].value.Some?
    ensures n < |vars| ==> vars[n].key.None? || vars[n].value.None?
  {
    if |vars| == 0 || vars[0].key.None? || vars[0].value.None? then 0 else 1 + Count(vars[1..])
  }

  /** The option variable `i` parses to. */
  function Parsed(conf: map<string, string>, vars: seq<Variable>, i: nat): Option<CoreOption>
    requires i < Count(vars)
  {
    ParseVariable(conf, vars[i].key.value, vars[i].value.value)
  }

  /** Each of the first `n` variables parses. */
  predicate AllParse(conf: map<string, string>, vars: seq<Variable>, n: nat)
    requires n <= Count(vars)
  {
    forall i :: 0 <= i < n ==> Parsed(conf, vars, i).Some?
  }

  /** Parses the first `n` variables, failing as soon as one fails. */
  function ParseAll(conf: map<string, string>, vars: seq<Variable>, n: nat): (r: Option<seq<CoreOption>>)
    requires n <= Count(vars)
    ensures r.Some? ==> |r.value| == n && forall i :: 0 <= i < n ==> Some(r.value[i]) == Parsed(conf, vars, i)
    ensures r.Some? <==> AllParse(conf, vars, n)
  {
    if n == 0 then Some([])
    else
      var prev := ParseAll(conf, vars, n - 1);
      var last := Parsed(conf, vars, n - 1);
      AllParseSnoc(conf, vars, n);
      if prev.None? || last.None? then None
      else
        ExtendParsed(conf, vars, n, prev.value, last.value);
        Some(prev.value + [last.value])
  }

  lemma AllParseSnoc(conf: map<string, string>, vars: seq<Variable>, n: nat)
    requires 0 < n <= Count(vars)
    ensures AllParse(conf, vars, n) <==> AllParse(conf, vars, n - 1) && Parsed(conf, vars, n - 1).Some?
  {
  }

  lemma ExtendParsed(conf: map<string, string>, vars: seq<Variable>, n: nat, prev: seq<CoreOption>, o: CoreOption)
    requires 0 < n <= Count(vars) && |prev| == n - 1
    requires forall i :: 0 <= i < n - 1 ==> Some(prev[i]) == Parsed(conf, vars, i)
    requires Some(o) == Parsed(conf, vars, n - 1)
    ensures forall i :: 0 <= i < n ==> Some((prev + [o])[i]) == Parsed(conf, vars, i)
  {
    forall i | 0 <= i < n ensures Some((prev + [o])[i]) == Parsed(conf, vars, i) {
      if i < n - 1 {
        assert (prev + [o])[i] == prev[i];
      }
    }
  }

  /** A variable parses exactly when its value holds a `"; "`. */
  lemma AllParseFinds(conf: map<string, string>, vars: seq<Variable>, n: nat)
    requires n <= Count(vars)
    ensures AllParse(conf, vars, n) <==> forall i :: 0 <= i < n ==> Find(vars[i].value.value, "; ").Some?
  {
    forall i | 0 <= i < n
      ensures Parsed(conf, vars, i).Some? <==> Find(vars[i].value.value, "; ").Some?
    {
    }
  }

  /** `core_option_new`: one option per variable before the NULL terminator;
      any malformed variable makes the whole manager fail. */
  function New(conf: map<string, string>, vars: seq<Variable>): (r: Option<Manager>)
    ensures r.Some? ==> |r.value.opts| == Count(vars) && !r.value.updated && r.value.conf == conf
    ensures r.Some? <==> forall i :: 0 <= i < Count(vars) ==>
              Find(vars[i].value.value, "; ").Some?
    ensures r.Some? ==> forall i :: 0 <= i < |r.value.opts| ==> r.value.opts[i].key == vars[i].key.value
    ensures r.Some? ==> forall i :: 0 <= i < |r.value.opts| ==> Some(r.value.opts[i]) == Parsed(conf, vars, i)
    ensures r.Some? && (forall i :: 0 <= i < |r.value.opts| ==> |r.value.opts[i].vals| > 0) ==> Valid(r.value)
  {
    AllParseFinds(conf, vars, Count(vars));
    match ParseAll(conf, vars, Count(vars))
    case None => None
    case Some(opts) => Some(Manager(opts, false, conf))
  }

  /** `core_option_get`: clears the change flag and answers with the
      selected value of the first option with that key. */
  function Get(m: Manager, key: string): (r: (Manager, Option<string>))
    requires Valid(m)
    ensures r.0 == m.(updated := false)
    ensures r.1.None? <==> forall i :: 0 <= i < |m.opts| ==> m.opts[i].key != key
    ensures r.1.Some? ==> exists i :: FirstWithKey(m.opts, key, i) && r.1.value == m.opts[i].vals[m.opts[i].index]
  {
    (m.(updated := false), Lookup(m.opts, key))
  }

  /** The value a freshly created manager answers for an option: the value
      stored in the configuration when it is one of the option's values, the
      first value otherwise. */
  lemma NewThenGet(conf: map<string, string>, vars: seq<Variable>, key: string, i: nat)
    requires New(conf, vars).Some?
    requires forall j :: 0 <= j < |New(conf, vars).value.opts| ==> |New(conf, vars).value.opts[j].vals| > 0
    requires i < Count(vars) && vars[i].key.value == key
    requires forall j :: 0 <= j < i ==> vars[j].key.value != key
    ensures var o := New(conf, vars).value.opts[i];
            Get(New(conf, vars).value, key).1 ==
              Some(if key in conf && conf[key] in o.vals then conf[key] else o.vals[0])
  {
    var m := New(conf, vars).value;
    assert FirstWithKey(m.opts, key, i);
    var r := Get(m, key).1;
    var k :| FirstWithKey(m.opts, key, k) && r.value == m.opts[k].vals[m.opts[k].index];
    assert Some(m.opts[i]) == Parsed(conf, vars, i);
  }

  /** `i` is the first option carrying `key`. */
  predicate FirstWithKey(opts: seq<CoreOption>, key: string, i: int)
  {
    0 <= i < |opts| && opts[i].key == key && forall j :: 0 <= j < i ==> opts[j].key != key
  }

  function Lookup(opts: seq<CoreOption>, key: string): (r: Option<string>)
    requires forall i :: 0 <= i < |opts| ==> opts[i].index < |opts[i].vals|
    ensures r.None? <==> forall i :: 0 <= i < |opts| ==> opts[i].key != key
    ensures r.Some? ==> exists i :: FirstWithKey(opts, key, i) && r.value == opts[i].vals[opts[i].index]
  {
    if |opts| == 0 then None
    else if opts[0].key == key then Some(opts[0].vals[opts[0].index])
    else
      var r := Lookup(opts[1..], key);
      if r.Some? then
        ghost var i :| FirstWithKey(opts[1..], key, i) && r.value == opts[1..][i].vals[opts[1..][i].index];
        assert FirstWithKey(opts, key, i + 1);
        r
      else r
  }

  /** Replaces the selection of option `idx`, flagging a change. */
  function Select(m: Manager, idx: nat, index: nat): (r: Manager)
    requires idx < |m.opts|
    ensures |r.opts| == |m.opts| && r.updated && r.conf == m.conf
    ensures r.opts[idx] == m.opts[idx].(index := index)
    ensures forall i :: 0 <= i < |m.opts| && i != idx ==> r.opts[i] == m.opts[i]
  {
    m.(opts := m.opts[idx := m.opts[idx].(index := index)], updated := true)
  }

  /** The source divides by the number of values; an option with no values
      leaves these operations undefined. */
  predicate Selectable(m: Manager, idx: nat)
  {
    idx < |m.opts| && |m.opts[idx].vals| > 0
  }

  /** `core_option_next`. */
  function Next(m: Manager, idx: nat): (r: Manager)
    requires Selectable(m, idx)
    ensures |r.opts| == |m.opts| && r.updated
    ensures Valid(m) ==> Valid(r)
    ensures r.opts[idx].index == (m.opts[idx].index + 1) % |m.opts[idx].vals|
  {
    Select(m, idx, (m.opts[idx].index + 1) % |m.opts[idx].vals|)
  }

  /** `core_option_prev`. */
  function Prev(m: Manager, idx: nat): (r: Manager)
    requires Selectable(m, idx)
    ensures |r.opts| == |m.opts| && r.updated
    ensures Valid(m) ==> Valid(r)
    ensures r.opts[idx].index == (m.opts[idx].index + |m.opts[idx].vals| - 1) % |m.opts[idx].vals|
  {
    Select(m, idx, (m.opts[idx].index + |m.opts[idx].vals| - 1) % |m.opts[idx].vals|)
  }

  /** `core_option_set_val`: any requested index is reduced into range. */
  function SetVal(m: Manager, idx: nat, valIdx: nat): (r: Manager)
    requires Selectable(m, idx)
    ensures |r.opts| == |m.opts| && r.updated
    ensures Valid(m) ==> Valid(r)
    ensures r.opts[idx].index < |m.opts[idx].vals|
    ensures valIdx < |m.opts[idx].vals| ==> r.opts[idx].index == valIdx
  {
    Select(m, idx, valIdx % |m.opts[idx].vals|)
  }

  /** `core_option_set_default`: back to the first value. */
  function SetDefault(m: Manager, idx: nat): (r: Manager)
    requires idx < |m.opts|
    ensures |r.opts| == |m.opts|
    ensures r.opts[idx].index == 0 && r.updated
    ensures Valid(m) && |m.opts[idx].vals| > 0 ==> Valid(r)
  {
    Select(m, idx, 0)
  }

  /** Stepping back undoes stepping forward, and the other way round; only
      the change flag remains. */
  lemma PrevUndoesNext(m: Manager, idx: nat)
    requires Valid(m) && Selectable(m, idx)
    ensures Prev(Next(m, idx), idx) == m.(updated := true)
    ensures Next(Prev(m, idx), idx) == m.(updated := true)
  {
    var n := |m.opts[idx].vals|;
    var k := m.opts[idx].index;
    if k + 1 < n {
      ModSmall(k + 1, n);
      ModWrap(k + 1 + n - 1, n);
    } else {
      ModWrap(k + 1, n);
      ModSmall(n - 1, n);
    }
    if k == 0 {
      ModSmall(n - 1, n);
      ModWrap(n, n);
    } else {
      ModWrap(k + n - 1, n);
      ModSmall(k, n);
    }
    assert Prev(Next(m, idx), idx).opts == m.opts;
    assert Next(Prev(m, idx), idx).opts == m.opts;
  }

  /** `steps` presses of "next" land `steps` values further on, cyclically. */
  function NextTimes(m: Manager, idx: nat, steps: nat): (r: Manager)
    requires Selectable(m, idx)
    ensures Selectable(r, idx) && |r.opts[idx].vals| == |m.opts[idx].vals|
    decreases steps
  {
    if steps == 0 then m else Next(NextTimes(m, idx, steps - 1), idx)
  }

  lemma {:induction false} NextCycles(m: Manager, idx: nat, steps: nat)
    requires Valid(m) && Selectable(m, idx)
    ensures NextTimes(m, idx, steps).opts[idx].index == (m.opts[idx].index + steps) % |m.opts[idx].vals|
    decreases steps
  {
    if steps > 0 {
      NextCycles(m, idx, steps - 1);
      ModSucc(m.opts[idx].index + steps - 1, |m.opts[idx].vals|);
    }
  }

  /** After a change, the next query reports the new value and the change is
      acknowledged. */
  lemma GetSeesNext(m: Manager, idx: nat)
    requires Valid(m) && Selectable(m, idx)
    requires forall j :: 0 <= j < idx ==> m.opts[j].key != m.opts[idx].key
    ensures var n := Next(m, idx);
            Get(n, m.opts[idx].key) ==
              (n.(updated := false), Some(m.opts[idx].vals[(m.opts[idx].index + 1) % |m.opts[idx].vals|]))
  {
    var n := Next(m, idx);
    var r := Get(n, m.opts[idx].key);
    assert r.1.Some?;
    var i :| FirstWithKey(n.opts, m.opts[idx].key, i) && r.1.value == n.opts[i].vals[n.opts[i].index];
    assert i == idx;
  }

  /** `core_option_flush`: every option's selected value goes into the
      configuration, and the file is written unconditionally, or (in USE_TITLE
      builds) only when something changed. */
  function Flush(m: Manager, useTitle: bool): (r: (map<string, string>, bool))
    requires Valid(m)
    ensures r.1 <==> !useTitle || m.updated
    ensures forall i :: 0 <= i < |m.opts| ==> m.opts[i].key in r.0
    ensures forall k :: k in m.conf ==> k in r.0
    ensures forall k :: k in r.0 && k !in m.conf ==> exists i :: 0 <= i < |m.opts| && m.opts[i].key == k
    ensures forall k :: k in m.conf && k !in KeysOf(m.opts) ==> r.0[k] == m.conf[k]
  {
    (Store(m.conf, m.opts), !useTitle || m.updated)
  }

  function Store(conf: map<string, string>, opts: seq<CoreOption>): (r: map<string, string>)
    requires forall i :: 0 <= i < |opts| ==> opts[i].index < |opts[i].vals|
    ensures forall i :: 0 <= i < |opts| ==> opts[i].key in r
    ensures r.Keys == conf.Keys + KeysOf(opts)
    ensures |opts| > 0 ==> r[opts[|opts| - 1].key] == opts[|opts| - 1].vals[opts[|opts| - 1].index]
    ensures forall k :: k in conf && k !in KeysOf(opts) ==> r[k] == conf[k]
  {
    if |opts| == 0 then conf
    else
      var o := opts[|opts| - 1];
      var prefix := opts[..|opts| - 1];
      KeysOfSnoc(opts);
      Store(conf, prefix)[o.key := o.vals[o.index]]
  }

  /** The keys of a list of options. */
  function KeysOf(opts: seq<CoreOption>): set<string>
  {
    set i | 0 <= i < |opts| :: opts[i].key
  }

  lemma KeysOfSnoc(opts: seq<CoreOption>)
    requires |opts| > 0
    ensures KeysOf(opts) == KeysOf(opts[..|opts| - 1]) + {opts[|opts| - 1].key}
  {
    var prefix := opts[..|opts| - 1];
    forall k | k in KeysOf(opts) ensures k in KeysOf(prefix) + {opts[|opts| - 1].key} {
      var i :| 0 <= i < |opts| && opts[i].key == k;
      if i < |opts| - 1 { assert prefix[i] == opts[i]; }
    }
    forall k | k in KeysOf(prefix) ensures k in KeysOf(opts) {
      var i :| 0 <= i < |prefix| && prefix[i].key == k;
      assert opts[i] == prefix[i];
    }
  }

  /** What `Flush` stores under an option's key is that option's selected
      value, unless a later option has the same key. */
  lemma FlushStoresSelection(m: Manager, i: nat)
    requires Valid(m) && i < |m.opts|
    requires forall j :: i < j < |m.opts| ==> m.opts[j].key != m.opts[i].key
    ensures Flush(m, false).0[m.opts[i].key] == m.opts[i].vals[m.opts[i].index]
  {
    StoreLast(m.conf, m.opts, i);
  }

  lemma {:induction false} StoreLast(conf: map<string, string>, opts: seq<CoreOption>, i: nat)
    requires forall k :: 0 <= k < |opts| ==> opts[k].index < |opts[k].vals|
    requires i < |opts|
    requires forall j :: i < j < |opts| ==> opts[j].key != opts[i].key
    ensures Store(conf, opts)[opts[i].key] == opts[i].vals[opts[i].index]
    decreases |opts|
  {
    if i < |opts| - 1 {
      var prefix := opts[..|opts| - 1];
      StoreLast(conf, prefix, i);
    }
  }
}
