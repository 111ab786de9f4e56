/** The calculator mount pass of the note viewer. After new content reaches the
    page, every live calculator is detached and destroyed, and then each
    `.calculator-placeholder` element, in document order, is replaced by a freshly
    created calculator configured from its `data-calculator-config` attribute.

    The page is reduced to the sequence of placeholder positions; the component
    framework to a registry of live components keyed by handle. `JSON.parse` is a
    parameter `parse`, `None` standing for a throw. */
module Widgets {
  import opened Wrappers

  /** A component reference; new ones are numbered from the registry's counter. */
  type Handle = nat

  /** A live calculator: its `config` input and whether its view is attached to
      the application for change detection. */
  datatype Widget<C> = Widget(config: C, attached: bool)

  datatype Registry<C> = Registry(live: map<Handle, Widget<C>>, next: Handle)

  /** A position that held a placeholder: still the placeholder, with its config
      attribute and whether its error message is shown, or the host element of the
      calculator that replaced it. */
  datatype Slot = Placeholder(config: Option<string>, showsError: bool) | Host(handle: Handle)

  /** Every live handle was handed out before the counter's current value. */
  predicate Fresh<C>(reg: Registry<C>) {
    forall h :: h in reg.live ==> h < reg.next
  }

  /** `configAttr.replace(/&quot;/g, '"')`. */
  function UnescapeQuotes(s: string): string
    decreases |s|
  {
    if |s| >= 6 && s[..6] == "&quot;" then "\"" + UnescapeQuotes(s[6..])
    else if s == [] then []
    else [s[0]] + UnescapeQuotes(s[1..])
  }

  /** The attribute encoding the unescaping undoes: each double quote as `&quot;`. */
  function EscapeQuotes(s: string): (r: string)
    ensures '"' !in r
  {
    if s == [] then [] else (if s[0] == '"' then "&quot;" else [s[0]]) + EscapeQuotes(s[1..])
  }

  /** A literal `&quot;` starts at position `i` of `s`. */
  predicate EntityAt(s: string, i: nat) {
    i + 6 <= |s| && s[i..i + 6] == "&quot;"
  }

  /** `s` holds no literal `&quot;`. */
  predicate NoEntity(s: string) {
    forall i: nat :: i < |s| ==> !EntityAt(s, i)
  }

  /** A configuration holding no literal `&quot;` survives the attribute round
      trip. */
  lemma {:induction false} QuoteRoundTrip(s: string)
    requires NoEntity(s)
    ensures UnescapeQuotes(EscapeQuotes(s)) == s
  {
    if s != [] {
      assert NoEntity(s[1..]) by {
        forall i: nat | i < |s[1..]|
          ensures !EntityAt(s[1..], i)
        {
          assert !EntityAt(s, i + 1);
          if i + 6 <= |s[1..]| {
            assert s[1..][i..i + 6] == s[i + 1..i + 7];
          }
        }
      }
      QuoteRoundTrip(s[1..]);
      var rest := EscapeQuotes(s[1..]);
      if s[0] == '"' {
        assert EscapeQuotes(s) == "&quot;" + rest;
        UnescapeEntity(rest);
      } else if s[0] == '&' {
        assert EscapeQuotes(s) == [s[0]] + rest;
        UnescapeLoneAmpersand(s, rest);
      } else {
        assert EscapeQuotes(s) == [s[0]] + rest;
        UnescapePlain(s[0], rest);
      }
      assert s == [s[0]] + s[1..];
    }
  }

  /** An ampersand that does not start a literal entity is kept: the escaped
      rest can only spell `quot;` when the original does. */
  lemma UnescapeLoneAmpersand(s: string, rest: string)
    requires s != [] && s[0] == '&' && NoEntity(s) && rest == EscapeQuotes(s[1..])
    ensures UnescapeQuotes([s[0]] + rest) == [s[0]] + UnescapeQuotes(rest)
  {
    var t := [s[0]] + rest;
    assert t[0] == s[0] && t[1..] == rest;
    assert |t| >= 6 && t[..6] == "&quot;" ==> "quot;" <= rest by {
      if |t| >= 6 && t[..6] == "&quot;" {
        assert rest[..5] == t[1..6];
      }
    }
    EscapedPrefix(s[1..], "quot;");
    assert "quot;" <= s[1..] ==> EntityAt(s, 0) by {
      if "quot;" <= s[1..] {
        assert s[..6] == [s[0]] + s[1..][..5];
      }
    }
    assert !EntityAt(s, 0);
  }

  /** A prefix without ampersands of the escaped text is a prefix of the
      original: escaping only inserts text starting with `&`. */
  lemma {:induction false} EscapedPrefix(t: string, p: string)
    ensures '&' !in p && p <= EscapeQuotes(t) ==> p <= t
    decreases p
  {
    if p != [] && '&' !in p && p <= EscapeQuotes(t) {
      assert t != [];
      assert p[0] in p;
      assert EscapeQuotes(t)[0] == p[0];
      assert EscapeQuotes(t)[0] == if t[0] == '"' then '&' else t[0];
      assert EscapeQuotes(t) == [t[0]] + EscapeQuotes(t[1..]);
      assert '&' !in p[1..];
      EscapedPrefix(t[1..], p[1..]);
    }
  }

  /** A configuration that holds the literal text `&quot;` is changed by the
      unescaping: it comes back as a bare double quote. */
  lemma LiteralEntityDecoded()
    ensures UnescapeQuotes(EscapeQuotes("&quot;")) == "\""
  {
    var s := "&quot;";
    assert s[1..] == "quot;" && s[0] == '&';
    assert EscapeQuotes(s) == s by {
      assert "quot;"[1..] == "uot;";
      assert "uot;"[1..] == "ot;";
      assert "ot;"[1..] == "t;";
      assert "t;"[1..] == ";";
      assert ";"[1..] == [];
    }
    assert s[..6] == "&quot;" && s[6..] == [];
  }

  /** An entity in front turns into a double quote. */
  lemma UnescapeEntity(rest: string)
    ensures UnescapeQuotes("&quot;" + rest) == "\"" + UnescapeQuotes(rest)
  {
    var t := "&quot;" + rest;
    assert t[..6] == "&quot;" && t[6..] == rest;
  }

  /** A character other than an ampersand in front is kept. */
  lemma UnescapePlain(c: char, rest: string)
    requires c != '&'
    ensures UnescapeQuotes([c] + rest) == [c] + UnescapeQuotes(rest)
  {
    var t := [c] + rest;
    assert t[0] == c && t[1..] == rest;
  }

  /** The placeholder's attribute is present and non-empty. */
  predicate HasConfig(slot: Slot) {
    slot.Placeholder? && slot.config.Some? && slot.config.value != []
  }

  /** The placeholder a calculator replaces: its decoded attribute parses. */
  predicate Mounts<C>(slot: Slot, parse: string -> Option<C>) {
    HasConfig(slot) && parse(UnescapeQuotes(slot.config.value)).Some?
  }

  /** The placeholder whose attribute does not parse shows the error message. */
  predicate Fails<C>(slot: Slot, parse: string -> Option<C>) {
    HasConfig(slot) && parse(UnescapeQuotes(slot.config.value)).None?
  }

  /** The handles of the calculator hosts among `doc`, in document order. */
  function HostsOf(doc: seq<Slot>): seq<Handle> {
    if doc == [] then []
    else HostsOf(doc[..|doc| - 1]) + (if doc[|doc| - 1].Host? then [doc[|doc| - 1].handle] else [])
  }

  lemma HostsOfAppend(doc: seq<Slot>, slot: Slot)
    ensures HostsOf(doc + [slot]) == HostsOf(doc) + (if slot.Host? then [slot.handle] else [])
  {
    assert (doc + [slot])[..|doc|] == doc;
  }

  /** `cleanupCalculatorComponents`: every tracked component is detached and
      destroyed, and nothing else in the registry changes. */
  method Cleanup<C>(reg: Registry<C>, tracked: seq<Handle>) returns (reg': Registry<C>)
    ensures reg'.next == reg.next
    ensures forall h :: h in reg'.live <==> h in reg.live && h !in tracked
    ensures forall h :: h in reg'.live ==> reg'.live[h] == reg.live[h]
  {
    reg' := reg;
    var i := 0;
    while i < |tracked|
      invariant 0 <= i <= |tracked|
      invariant reg'.next == reg.next
      invariant forall h :: h in reg'.live <==> h in reg.live && h !in tracked[..i]
      invariant forall h :: h in reg'.live ==> reg'.live[h] == reg.live[h]
    {
      var h := tracked[i];
      if h in reg'.live {
        // detachView, then destroy
        var detached := reg'.live[h := reg'.live[h].(attached := false)];
        reg' := reg'.(live := detached - {h});
      }
      assert tracked[..i + 1] == tracked[..i] + [h];
      i := i + 1;
    }
    assert tracked[..i] == tracked;
  }

  /** `renderCalculatorComponents`: cleans up, then walks the placeholders
      found in the page. */
  method RenderWidgets<C>(reg: Registry<C>, tracked: seq<Handle>, doc: seq<Slot>, parse: string -> Option<C>)
    returns (reg': Registry<C>, tracked': seq<Handle>, doc': seq<Slot>)
    requires Fresh(reg) && forall h :: h in tracked ==> h < reg.next
    requires forall k :: 0 <= k < |doc| ==> doc[k].Placeholder?
    ensures Fresh(reg')
    ensures |doc'| == |doc|
    ensures forall i :: 0 <= i < |doc| && !HasConfig(doc[i]) ==> doc'[i] == doc[i]
    ensures forall i :: 0 <= i < |doc| && Fails(doc[i], parse) ==> doc'[i] == doc[i].(showsError := true)
    ensures forall i :: 0 <= i < |doc| && Mounts(doc[i], parse) ==>
      doc'[i].Host? && doc'[i].handle in reg'.live
      && reg'.live[doc'[i].handle] == Widget(ConfigOf(doc[i], parse), true)
    ensures tracked' == HostsOf(doc')
    ensures forall h :: h in tracked' ==> h < reg'.next
    ensures forall j, k :: 0 <= j < k < |tracked'| ==> tracked'[j] != tracked'[k]
    ensures forall h :: h in tracked ==> h !in reg'.live
    ensures forall h :: h in reg.live && h !in tracked ==> h in reg'.live && reg'.live[h] == reg.live[h]
    ensures forall h :: h in reg'.live ==> (h in reg.live && h !in tracked) || h in tracked'
  {
    var cleaned := Cleanup(reg, tracked);
    reg', tracked', doc' := MountPlaceholders(cleaned, doc, parse);
  }

  /** The configuration a mounting placeholder's calculator receives. */
  function ConfigOf<C>(slot: Slot, parse: string -> Option<C>): C
    requires Mounts(slot, parse)
  {
    parse(UnescapeQuotes(slot.config.value)).value
  }

  /** What a placeholder that gets no calculator turns into. */
  function Unmounted(slot: Slot): Slot {
    if HasConfig(slot) then slot.(showsError := true) else slot
  }

  /** The state of the placeholder walk: the registry, the handles recorded so far
      and the positions already visited. */
  datatype Pass<C> = Pass(reg: Registry<C>, tracked: seq<Handle>, doc: seq<Slot>)

  /** Visits one placeholder. */
  function MountStep<C>(p: Pass<C>, slot: Slot, parse: string -> Option<C>): Pass<C> {
    if Mounts(slot, parse) then
      var h := p.reg.next;
      Pass(Registry(p.reg.live[h := Widget(ConfigOf(slot, parse), true)], h + 1), p.tracked + [h], p.doc + [Host(h)])
    else Pass(p.reg, p.tracked, p.doc + [Unmounted(slot)])
  }

  /** The walk over the first `n` placeholders, in document order. */
  function Walk<C>(reg: Registry<C>, doc: seq<Slot>, parse: string -> Option<C>, n: nat): Pass<C>
    requires n <= |doc|
  {
    if n == 0 then Pass(reg, [], []) else MountStep(Walk(reg, doc, parse, n - 1), doc[n - 1], parse)
  }

  /** The walk visits every position once and numbers the handles it records
      consecutively from the counter. */
  lemma {:induction false} WalkCounts<C>(reg: Registry<C>, doc: seq<Slot>, parse: string -> Option<C>, n: nat)
    requires n <= |doc|
    ensures var w := Walk(reg, doc, parse, n);
      && |w.doc| == n
      && w.reg.next == reg.next + |w.tracked|
      && (forall j :: 0 <= j < |w.tracked| ==> w.tracked[j] == reg.next + j)
  {
    if n > 0 {
      WalkCounts(reg, doc, parse, n - 1);
    }
  }

  /** A visited position keeps what it became. */
  lemma WalkExtends<C>(reg: Registry<C>, doc: seq<Slot>, parse: string -> Option<C>, n: nat)
    requires 0 < n <= |doc|
    ensures var w0 := Walk(reg, doc, parse, n - 1);
      var w := Walk(reg, doc, parse, n);
      |w0.doc| == n - 1 && |w.doc| == n && w.doc[..n - 1] == w0.doc
      && w.doc[n - 1] == (if Mounts(doc[n - 1], parse) then Host(w0.reg.next) else Unmounted(doc[n - 1]))
  {
    WalkCounts(reg, doc, parse, n - 1);
  }

  /** A placeholder that gets no calculator shows the error exactly when it has
      a config, and is otherwise left as it is. */
  lemma {:induction false} WalkUnmounted<C>(reg: Registry<C>, doc: seq<Slot>, parse: string -> Option<C>, n: nat)
    requires n <= |doc|
    ensures var w := Walk(reg, doc, parse, n);
      |w.doc| == n && forall k :: 0 <= k < n && !Mounts(doc[k], parse) ==> w.doc[k] == Unmounted(doc[k])
  {
    WalkCounts(reg, doc, parse, n);
    if n > 0 {
      WalkUnmounted(reg, doc, parse, n - 1);
      WalkExtends(reg, doc, parse, n);
      var w0 := Walk(reg, doc, parse, n - 1);
      var w := Walk(reg, doc, parse, n);
      assert forall k :: 0 <= k < n - 1 ==> w.doc[k] == w0.doc[k];
    }
  }

  /** A placeholder that gets a calculator becomes a host with a handle handed
      out during the walk. */
  lemma {:induction false} WalkHosts<C>(reg: Registry<C>, doc: seq<Slot>, parse: string -> Option<C>, n: nat)
    requires n <= |doc|
    ensures var w := Walk(reg, doc, parse, n);
      |w.doc| == n && w.reg.next >= reg.next
      && forall k :: 0 <= k < n && Mounts(doc[k], parse) ==> w.doc[k].Host? && reg.next <= w.doc[k].handle < w.reg.next
  {
    WalkCounts(reg, doc, parse, n);
    if n > 0 {
      WalkHosts(reg, doc, parse, n - 1);
      WalkExtends(reg, doc, parse, n);
      var w0 := Walk(reg, doc, parse, n - 1);
      var w := Walk(reg, doc, parse, n);
      assert forall k :: 0 <= k < n - 1 ==> w.doc[k] == w0.doc[k];
    }
  }

  /** The recorded handles are the hosts, in document order. */
  lemma {:induction false} WalkTracksHosts<C>(reg: Registry<C>, doc: seq<Slot>, parse: string -> Option<C>, n: nat)
    requires n <= |doc|
    requires forall k :: 0 <= k < |doc| ==> doc[k].Placeholder?
    ensures var w := Walk(reg, doc, parse, n);
      w.tracked == HostsOf(w.doc)
  {
    if n > 0 {
      WalkTracksHosts(reg, doc, parse, n - 1);
      var w0 := Walk(reg, doc, parse, n - 1);
      var last := if Mounts(doc[n - 1], parse) then Host(w0.reg.next) else Unmounted(doc[n - 1]);
      assert Walk(reg, doc, parse, n).doc == w0.doc + [last];
      HostsOfAppend(w0.doc, last);
    }
  }

  /** The registry after the walk: the old entries untouched and the new handles
      exactly the counter values handed out. */
  lemma {:induction false} WalkRegistry<C>(reg: Registry<C>, doc: seq<Slot>, parse: string -> Option<C>, n: nat)
    requires n <= |doc| && Fresh(reg)
    ensures var w := Walk(reg, doc, parse, n);
      && w.reg.next >= reg.next
      && (forall h :: h in w.reg.live <==> h in reg.live || reg.next <= h < w.reg.next)
      && (forall h :: h in reg.live ==> w.reg.live[h] == reg.live[h])
  {
    if n > 0 {
      WalkRegistry(reg, doc, parse, n - 1);
    }
  }

  /** Each of the first `n` positions that mounts holds the host of an attached
      calculator configured from its placeholder. */
  ghost predicate Configured<C>(w: Pass<C>, doc: seq<Slot>, parse: string -> Option<C>, n: nat)
    requires n <= |doc|
  {
    |w.doc| == n &&
    forall k :: 0 <= k < n && Mounts(doc[k], parse) ==>
      w.doc[k].Host? && w.doc[k].handle in w.reg.live
      && w.reg.live[w.doc[k].handle] == Widget(ConfigOf(doc[k], parse), true)
  }

  /** Each host holds an attached calculator configured from the placeholder it
      replaced. */
  lemma {:induction false} WalkConfigs<C>(reg: Registry<C>, doc: seq<Slot>, parse: string -> Option<C>, n: nat)
    requires n <= |doc| && Fresh(reg)
    ensures var w := Walk(reg, doc, parse, n);
      |w.doc| == n &&
      forall k :: 0 <= k < n && Mounts(doc[k], parse) ==>
        w.doc[k].Host? && w.doc[k].handle in w.reg.live
        && w.reg.live[w.doc[k].handle] == Widget(ConfigOf(doc[k], parse), true)
  {
    WalkCounts(reg, doc, parse, n);
    if n > 0 {
      WalkConfigs(reg, doc, parse, n - 1);
      if Mounts(doc[n - 1], parse) {
        WalkConfigsMount(reg, doc, parse, n);
      } else {
        WalkConfigsSkip(reg, doc, parse, n);
      }
    }
    assert Configured(Walk(reg, doc, parse, n), doc, parse, n);
  }

  /** Mounting the last placeholder adds a host whose handle is new, so the
      earlier hosts keep their calculators. */
  lemma WalkConfigsMount<C>(reg: Registry<C>, doc: seq<Slot>, parse: string -> Option<C>, n: nat)
    requires 0 < n <= |doc| && Fresh(reg) && Mounts(doc[n - 1], parse)
    requires Configured(Walk(reg, doc, parse, n - 1), doc, parse, n - 1)
    ensures Configured(Walk(reg, doc, parse, n), doc, parse, n)
  {
    WalkExtends(reg, doc, parse, n);
    var w0 := Walk(reg, doc, parse, n - 1);
    var w := Walk(reg, doc, parse, n);
    var h := w0.reg.next;
    assert w.reg.live == w0.reg.live[h := Widget(ConfigOf(doc[n - 1], parse), true)];
    forall k | 0 <= k < n - 1 && Mounts(doc[k], parse)
      ensures w.doc[k].Host? && w.doc[k].handle in w.reg.live
      ensures w.reg.live[w.doc[k].handle] == Widget(ConfigOf(doc[k], parse), true)
    {
      assert w.doc[k] == w0.doc[k];
      HostBelowCounter(reg, doc, parse, n - 1, k);
    }
  }

  /** A host recorded by the walk holds a handle below the counter. */
  lemma HostBelowCounter<C>(reg: Registry<C>, doc: seq<Slot>, parse: string -> Option<C>, n: nat, k: nat)
    requires n <= |doc| && k < n && Mounts(doc[k], parse)
    ensures var w := Walk(reg, doc, parse, n);
      |w.doc| == n && w.doc[k].Host? && w.doc[k].handle < w.reg.next
  {
    WalkHosts(reg, doc, parse, n);
  }

  /** Passing over the last placeholder leaves the registry and the earlier
      positions as they were. */
  lemma WalkConfigsSkip<C>(reg: Registry<C>, doc: seq<Slot>, parse: string -> Option<C>, n: nat)
    requires 0 < n <= |doc| && !Mounts(doc[n - 1], parse)
    requires Configured(Walk(reg, doc, parse, n - 1), doc, parse, n - 1)
    ensures Configured(Walk(reg, doc, parse, n), doc, parse, n)
  {
    WalkExtends(reg, doc, parse, n);
    var w0 := Walk(reg, doc, parse, n - 1);
    var w := Walk(reg, doc, parse, n);
    assert w.reg == w0.reg;
    assert forall k :: 0 <= k < n - 1 ==> w.doc[k] == w0.doc[k];
  }

  /** The placeholder walk: one with a missing or empty attribute is left as it
      is; one whose attribute does not parse shows the error message and stays;
      every other is replaced by the host of a new, attached calculator, whose
      handle is recorded in document order. */
  method MountPlaceholders<C>(reg: Registry<C>, doc: seq<Slot>, parse: string -> Option<C>)
    returns (reg': Registry<C>, tracked': seq<Handle>, doc': seq<Slot>)
    requires Fresh(reg)
    requires forall k :: 0 <= k < |doc| ==> doc[k].Placeholder?
    ensures Fresh(reg')
    ensures |doc'| == |doc|
    ensures forall i :: 0 <= i < |doc| && !HasConfig(doc[i]) ==> doc'[i] == doc[i]
    ensures forall i :: 0 <= i < |doc| && Fails(doc[i], parse) ==> doc'[i] == doc[i].(showsError := true)
    ensures forall i :: 0 <= i < |doc| && Mounts(doc[i], parse) ==>
      doc'[i].Host? && doc'[i].handle in reg'.live
      && reg'.live[doc'[i].handle] == Widget(ConfigOf(doc[i], parse), true)
    ensures tracked' == HostsOf(doc')
    ensures forall j :: 0 <= j < |tracked'| ==> tracked'[j] == reg.next + j
    ensures forall h :: h in reg'.live <==> h in reg.live || h in tracked'
    ensures forall h :: h in reg.live ==> reg'.live[h] == reg.live[h]
  {
    reg' := reg;
    tracked' := [];
    doc' := [];
    var i := 0;
    while i < |doc|
      invariant 0 <= i <= |doc|
      invariant Walk(reg, doc, parse, i) == Pass(reg', tracked', doc')
    {
      var slot := doc[i];
      assert Walk(reg, doc, parse, i + 1) == MountStep(Pass(reg', tracked', doc'), slot, parse);
      if Mounts(slot, parse) {
        var h := reg'.next;
        reg' := Registry(reg'.live[h := Widget(ConfigOf(slot, parse), true)], h + 1);
        tracked' := tracked' + [h];
        doc' := doc' + [Host(h)];
      } else {
        doc' := doc' + [Unmounted(slot)];
      }
      i := i + 1;
    }
    WalkComplete(reg, doc, parse);
    assert Walk(reg, doc, parse, |doc|).doc == doc';
  }

  /** What the walk over every placeholder leaves behind. */
  lemma WalkComplete<C>(reg: Registry<C>, doc: seq<Slot>, parse: string -> Option<C>)
    requires Fresh(reg)
    requires forall k :: 0 <= k < |doc| ==> doc[k].Placeholder?
    ensures var w := Walk(reg, doc, parse, |doc|);
      && Fresh(w.reg)
      && |w.doc| == |doc|
      && (forall i :: 0 <= i < |doc| && !HasConfig(doc[i]) ==> w.doc[i] == doc[i])
      && (forall i :: 0 <= i < |doc| && Fails(doc[i], parse) ==> w.doc[i] == doc[i].(showsError := true))
      && (forall i :: 0 <= i < |doc| && Mounts(doc[i], parse) ==>
            w.doc[i].Host? && w.doc[i].handle in w.reg.live
            && w.reg.live[w.doc[i].handle] == Widget(ConfigOf(doc[i], parse), true))
      && w.tracked == HostsOf(w.doc)
      && (forall j :: 0 <= j < |w.tracked| ==> w.tracked[j] == reg.next + j)
      && (forall h :: h in w.reg.live <==> h in reg.live || h in w.tracked)
      && (forall h :: h in reg.live ==> w.reg.live[h] == reg.live[h])
  {
    var w := Walk(reg, doc, parse, |doc|);
    WalkCounts(reg, doc, parse, |doc|);
    WalkUnmounted(reg, doc, parse, |doc|);
    WalkTracksHosts(reg, doc, parse, |doc|);
    WalkRegistry(reg, doc, parse, |doc|);
    WalkConfigs(reg, doc, parse, |doc|);
    forall h | h in w.reg.live && h !in reg.live
      ensures h in w.tracked
    {
      assert w.tracked[h - reg.next] == h;
    }
  }
}
