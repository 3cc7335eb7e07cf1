/**
  Suffix registration of utils.py's `InvertedIndex._get_tokenizers`: each
  importable plugin module in turn claims the suffixes it lists, and a suffix
  already claimed keeps its first plugin.
*/
module Registry {
  /** An entry of the `lexers` table with its plugin's suffixes: module name, class name, suffixes in iteration order. */
  datatype PluginEntry = PluginEntry(modname: string, clsname: string, suffixes: seq<string>)

  /**
    The shipped table (`lexers`), with the suffixes declared by the plugin
    classes under plugins/ (the set {".py", ".pyw"} taken in one order).
  */
  const ShippedPlugins: seq<PluginEntry> := [
    PluginEntry("calmjs", "CalmjsPlugin", [".js"]),
    PluginEntry("python", "PythonPlugin", [".py", ".pyw"]),
    PluginEntry("pygments", "PygmentsPlugin", [".rs", ".c", ".cpp", ".htm", ".html", ".pyx", ".pxd", ".pxi"])
  ]

  /**
    The inner loop as written: `obj` starts as the new plugin; a suffix that is
    already registered rebinds `obj` to its owner, and later suffixes of the
    same plugin are registered to that owner. Returns the table and `obj`.
  */
  function ClaimAsWritten(tokenizers: map<string, string>, obj: string, suffixes: seq<string>): (map<string, string>, string)
    decreases |suffixes|
  {
    if |suffixes| == 0 then (tokenizers, obj)
    else
      var (t, o) := ClaimAsWritten(tokenizers, obj, suffixes[..|suffixes| - 1]);
      var suffix := suffixes[|suffixes| - 1];
      if suffix in t then (t, t[suffix]) else (t[suffix := o], o)
  }

  /** `_get_tokenizers` as written over the first `n` entries; modules that fail to import are skipped. */
  function RegisteredAsWritten(lexers: seq<PluginEntry>, importable: set<string>): map<string, string>
    decreases |lexers|
  {
    if |lexers| == 0 then map[]
    else
      var prev := RegisteredAsWritten(lexers[..|lexers| - 1], importable);
      var e := lexers[|lexers| - 1];
      if e.modname in importable then ClaimAsWritten(prev, e.clsname, e.suffixes).0 else prev
  }

  /** `_get_tokenizers()` of utils.py: suffix to the class name of the plugin object registered for it. */
  method GetTokenizers(lexers: seq<PluginEntry>, importable: set<string>) returns (tokenizers: map<string, string>)
    ensures tokenizers == RegisteredAsWritten(lexers, importable)
  {
    tokenizers := map[];
    for i := 0 to |lexers|
      invariant tokenizers == RegisteredAsWritten(lexers[..i], importable)
    {
      assert lexers[..i + 1][..i] == lexers[..i];
      var entry := lexers[i];
      if entry.modname in importable {
        var obj := entry.clsname;
        var suffixes := entry.suffixes;
        for j := 0 to |suffixes|
          invariant (tokenizers, obj) == ClaimAsWritten(RegisteredAsWritten(lexers[..i], importable), entry.clsname, suffixes[..j])
        {
          assert suffixes[..j + 1][..j] == suffixes[..j];
          var suffix := suffixes[j];
          if suffix in tokenizers {
            obj := tokenizers[suffix];
          } else {
            tokenizers := tokenizers[suffix := obj];
          }
        }
        assert suffixes[..|suffixes|] == suffixes;
      }
    }
    assert lexers[..|lexers|] == lexers;
  }

  /** The registration the warning "already handled" describes: a claimed suffix is skipped and nothing is rebound. */
  function Claim(tokenizers: map<string, string>, obj: string, suffixes: seq<string>): map<string, string>
  {
    map s | s in tokenizers.Keys + set k | 0 <= k < |suffixes| :: suffixes[k] :: if s in tokenizers then tokenizers[s] else obj
  }

  /** The corrected `_get_tokenizers`. */
  function Registered(lexers: seq<PluginEntry>, importable: set<string>): map<string, string>
    decreases |lexers|
  {
    if |lexers| == 0 then map[]
    else
      var prev := Registered(lexers[..|lexers| - 1], importable);
      var e := lexers[|lexers| - 1];
      if e.modname in importable then Claim(prev, e.clsname, e.suffixes) else prev
  }

  /** `e` lists `suffix` and can be imported. */
  predicate Claims(e: PluginEntry, suffix: string, importable: set<string>)
  {
    e.modname in importable && suffix in e.suffixes
  }

  /**
    Corrected registration gives each suffix to the first importable plugin
    that lists it, and registers exactly the suffixes some importable plugin
    lists.
  */
  lemma {:induction false} RegisteredFirstClaim(lexers: seq<PluginEntry>, importable: set<string>, suffix: string)
    ensures suffix in Registered(lexers, importable) <==> exists k :: 0 <= k < |lexers| && Claims(lexers[k], suffix, importable)
    ensures suffix in Registered(lexers, importable) ==> exists k ::
      && 0 <= k < |lexers| && Claims(lexers[k], suffix, importable)
      && Registered(lexers, importable)[suffix] == lexers[k].clsname
      && forall j :: 0 <= j < k ==> !Claims(lexers[j], suffix, importable)
    decreases |lexers|
  {
    if |lexers| > 0 {
      var init := lexers[..|lexers| - 1];
      var e := lexers[|lexers| - 1];
      RegisteredFirstClaim(init, importable, suffix);
      assert forall k :: 0 <= k < |init| ==> init[k] == lexers[k];
      if suffix in Registered(init, importable) {
        var k :| 0 <= k < |init| && Claims(init[k], suffix, importable)
          && Registered(init, importable)[suffix] == init[k].clsname
          && forall j :: 0 <= j < k ==> !Claims(init[j], suffix, importable);
        assert Claims(lexers[k], suffix, importable);
      } else if Claims(e, suffix, importable) {
        var i :| 0 <= i < |e.suffixes| && e.suffixes[i] == suffix;
        assert Registered(lexers, importable)[suffix] == e.clsname;
        assert forall j :: 0 <= j < |lexers| - 1 ==> !Claims(lexers[j], suffix, importable);
      }
    }
  }

  /** With the rebinding, a plugin's later suffixes follow the owner of its earlier, already claimed, one. */
  lemma RebindingMisroutes()
    ensures var lexers := [PluginEntry("a", "A", [".x"]), PluginEntry("b", "B", [".x", ".y"])];
      && RegisteredAsWritten(lexers, {"a", "b"})[".y"] == "A"
      && Registered(lexers, {"a", "b"})[".y"] == "B"
  {
    var lexers := [PluginEntry("a", "A", [".x"]), PluginEntry("b", "B", [".x", ".y"])];
    assert lexers[..1] == [lexers[0]];
    assert lexers[..1][..0] == [];
    assert RegisteredAsWritten(lexers[..1], {"a", "b"}) == map[".x" := "A"] by {
      assert [".x"][..0] == [];
    }
    var s := [".x", ".y"];
    assert s[..1] == [".x"] && s[..1][..0] == [];
    assert ClaimAsWritten(map[".x" := "A"], "B", s[..1]) == (map[".x" := "A"], "A");
    assert Registered(lexers[..1], {"a", "b"}) == map[".x" := "A"] by {
      assert Registered(lexers[..0], {"a", "b"}) == map[];
    }
    assert ".y" in s;
  }

  /** No suffix is listed twice, by one plugin or by two. */
  predicate DisjointSuffixes(lexers: seq<PluginEntry>)
  {
    && (forall k, i, j :: 0 <= k < |lexers| && 0 <= i < j < |lexers[k].suffixes| ==> lexers[k].suffixes[i] != lexers[k].suffixes[j])
    && (forall a, b, s :: 0 <= a < b < |lexers| && s in lexers[a].suffixes ==> s !in lexers[b].suffixes)
  }

  /** Without overlapping suffixes the rebinding never shows: both registrations agree. */
  lemma {:induction false} DisjointRegistrationAgrees(lexers: seq<PluginEntry>, importable: set<string>)
    requires DisjointSuffixes(lexers)
    ensures RegisteredAsWritten(lexers, importable) == Registered(lexers, importable)
    decreases |lexers|
  {
    if |lexers| > 0 {
      var init := lexers[..|lexers| - 1];
      var e := lexers[|lexers| - 1];
      assert forall k :: 0 <= k < |init| ==> init[k] == lexers[k];
      assert DisjointSuffixes(init);
      DisjointRegistrationAgrees(init, importable);
      var prev := Registered(init, importable);
      forall k | 0 <= k < |e.suffixes| ensures e.suffixes[k] !in prev {
        RegisteredFirstClaim(init, importable, e.suffixes[k]);
      }
      ClaimFreshAgrees(prev, e.clsname, e.suffixes);
    }
  }

  /** The shipped plugins list disjoint suffixes, so both registrations agree on them. */
  lemma ShippedRegistrationAgrees(importable: set<string>)
    ensures RegisteredAsWritten(ShippedPlugins, importable) == Registered(ShippedPlugins, importable)
  {
    ShippedDisjoint();
    DisjointRegistrationAgrees(ShippedPlugins, importable);
  }

  /** No suffix appears twice in the shipped table. */
  lemma ShippedDisjoint()
    ensures DisjointSuffixes(ShippedPlugins)
  {
    var p := ShippedPlugins;
    var js, py, pg := p[0].suffixes, p[1].suffixes, p[2].suffixes;
    assert forall i, j :: 0 <= i < j < |pg| ==> pg[i] != pg[j] by {
      assert pg[0] != pg[1] && pg[0] != pg[2];
    }
    assert forall s :: s in js ==> s !in py && s !in pg;
    assert forall s :: s in py ==> s !in pg;
  }

  /** Suffixes none of which is claimed yet, and distinct: both registrations claim them all for `obj`. */
  lemma {:induction false} ClaimFreshAgrees(tokenizers: map<string, string>, obj: string, suffixes: seq<string>)
    requires forall k :: 0 <= k < |suffixes| ==> suffixes[k] !in tokenizers
    requires forall i, j :: 0 <= i < j < |suffixes| ==> suffixes[i] != suffixes[j]
    ensures ClaimAsWritten(tokenizers, obj, suffixes) == (Claim(tokenizers, obj, suffixes), obj)
    decreases |suffixes|
  {
    if |suffixes| > 0 {
      var init := suffixes[..|suffixes| - 1];
      ClaimFreshAgrees(tokenizers, obj, init);
      var last := suffixes[|suffixes| - 1];
      assert last !in init;
      assert Claim(tokenizers, obj, init)[last := obj] == Claim(tokenizers, obj, suffixes) by {
        assert (set k | 0 <= k < |suffixes| :: suffixes[k]) == (set k | 0 <= k < |init| :: init[k]) + {last};
      }
    } else {
      assert Claim(tokenizers, obj, suffixes) == tokenizers;
    }
  }
}
