/** The neutral string-keyed store the drivers share, and the records a driver lays into it. The store never
    interprets a key (crates/peryx-storage/src/meta/index.rs, crates/peryx-ecosystem-oci/src/store.rs). */
module MetaStore {
  import opened Common
  import opened ByteOrder
  import opened OciKeys

  ghost predicate Injective<K(!new)>(ok: K -> bool, spell: K -> string) {
    forall k, l :: ok(k) && ok(l) && spell(k) == spell(l) ==> k == l
  }

  /** `kv` carries exactly the records of `model`, each under its spelled key. */
  ghost predicate Flattens<K(!new)>(ok: K -> bool, spell: K -> string, model: map<K, string>, kv: map<string, string>) {
    && (forall k :: k in model ==> ok(k) && spell(k) in kv && kv[spell(k)] == model[k])
    && (forall s :: s in kv ==> exists k :: k in model && spell(k) == s)
  }

  /** A driver's records over the string-keyed table, with the abstract map they stand for. */
  class Table<K(!new)> {
    const spell: K -> string
    ghost const ok: K -> bool
    var kv: map<string, string>
    ghost var model: map<K, string>

    ghost predicate Valid()
      reads this
    {
      Injective(ok, spell) && Flattens(ok, spell, model, kv)
    }

    constructor (spell: K -> string, ghost ok: K -> bool)
      requires Injective(ok, spell)
      ensures Valid() && model == map[] && this.spell == spell && this.ok == ok
    {
      this.spell, this.ok := spell, ok;
      kv, model := map[], map[];
    }

    method Put(k: K, v: string)
      requires Valid() && ok(k)
      modifies this
      ensures Valid() && model == old(model)[k := v]
    {
      kv, model := kv[spell(k) := v], model[k := v];
    }

    method Remove(k: K) returns (removed: bool)
      requires Valid() && ok(k)
      modifies this
      ensures Valid() && model == old(model) - {k} && removed == (k in old(model))
    {
      removed := spell(k) in kv;
      kv, model := kv - {spell(k)}, model - {k};
    }

    method Get(k: K) returns (v: Option<string>)
      requires Valid() && ok(k)
      ensures v == if k in model then Some(model[k]) else None
    {
      v := if spell(k) in kv then Some(kv[spell(k)]) else None;
    }

    /** Every key that starts with `prefix`, in key order. */
    method PrefixKeys(prefix: string) returns (keys: seq<string>)
      ensures Ascending(keys)
      ensures forall s :: s in keys <==> s in kv && prefix <= s
    {
      keys := InOrder(set s | s in kv && prefix <= s);
    }
  }

  /** The scanned keys without the scan prefix. */
  method StripAll(kv: map<string, string>, keys: seq<string>, prefix: string) returns (rests: seq<string>)
    requires Ascending(keys) && forall s :: s in keys <==> s in kv && prefix <= s
    ensures Ascending(rests) && forall t :: t in rests <==> prefix + t in kv
  {
    rests := [];
    for n := 0 to |keys|
      invariant |rests| == n && forall i :: 0 <= i < n ==> keys[i] == prefix + rests[i]
    {
      assert keys[n] in keys;
      rests := rests + [keys[n][|prefix|..]];
    }
    forall i, j | 0 <= i < j < |rests| ensures Before(rests[i], rests[j]) {
      BeforeAfterPrefix(prefix, rests[i], rests[j]);
    }
    forall t ensures t in rests <==> prefix + t in kv { StripExact(kv, keys, prefix, rests, t); }
  }

  lemma StripExact(kv: map<string, string>, keys: seq<string>, prefix: string, rests: seq<string>, t: string)
    requires forall s :: s in keys <==> s in kv && prefix <= s
    requires |rests| == |keys| && forall i :: 0 <= i < |keys| ==> keys[i] == prefix + rests[i]
    ensures t in rests <==> prefix + t in kv
  {
    if t in rests {
      var i :| 0 <= i < |rests| && rests[i] == t;
      assert keys[i] in keys;
    }
    if prefix + t in kv {
      assert prefix + t in keys;
      var i :| 0 <= i < |keys| && keys[i] == prefix + t;
      assert (prefix + t)[|prefix|..] == t && (prefix + rests[i])[|prefix|..] == rests[i];
    }
  }

  /** Read a record out of every scanned key. */
  method ParseAll<K>(keys: seq<string>, parse: string -> Option<K>) returns (records: seq<K>)
    requires forall i :: 0 <= i < |keys| ==> parse(keys[i]).Some?
    ensures |records| == |keys| && forall i :: 0 <= i < |keys| ==> parse(keys[i]) == Some(records[i])
  {
    records := [];
    for n := 0 to |keys|
      invariant |records| == n && forall i :: 0 <= i < n ==> parse(keys[i]) == Some(records[i])
    {
      records := records + [parse(keys[n]).value];
    }
  }

  /** A scan prefix and a key parser that agree with the layout enumerate the records in scope, each once. */
  ghost predicate Reads<K(!new)>(spell: K -> string, model: map<K, string>, prefix: string, parse: string -> Option<K>, inScope: K -> bool) {
    forall k :: k in model ==> (prefix <= spell(k) <==> inScope(k)) && (inScope(k) ==> parse(spell(k)) == Some(k))
  }

  lemma ScannedParse<K(!new)>(ok: K -> bool, spell: K -> string, model: map<K, string>, kv: map<string, string>,
                              prefix: string, parse: string -> Option<K>, inScope: K -> bool, keys: seq<string>)
    requires Flattens(ok, spell, model, kv) && Reads(spell, model, prefix, parse, inScope)
    requires forall s :: s in keys <==> s in kv && prefix <= s
    ensures forall i :: 0 <= i < |keys| ==>
      parse(keys[i]).Some? && parse(keys[i]).value in model && inScope(parse(keys[i]).value) && spell(parse(keys[i]).value) == keys[i]
  {
    forall i | 0 <= i < |keys| ensures
      parse(keys[i]).Some? && parse(keys[i]).value in model && inScope(parse(keys[i]).value) && spell(parse(keys[i]).value) == keys[i]
    {
      assert keys[i] in keys;
      var k :| k in model && spell(k) == keys[i];
    }
  }

  lemma ScannedExact<K(!new)>(ok: K -> bool, spell: K -> string, model: map<K, string>, kv: map<string, string>,
                              prefix: string, parse: string -> Option<K>, inScope: K -> bool, keys: seq<string>, records: seq<K>)
    requires Flattens(ok, spell, model, kv) && Reads(spell, model, prefix, parse, inScope)
    requires Ascending(keys) && forall s :: s in keys <==> s in kv && prefix <= s
    requires |records| == |keys| && forall i :: 0 <= i < |keys| ==> parse(keys[i]) == Some(records[i])
    ensures forall k :: k in records <==> k in model && inScope(k)
    ensures Distinct(records)
  {
    ScannedParse(ok, spell, model, kv, prefix, parse, inScope, keys);
    forall k | k in model && inScope(k) ensures k in records {
      assert spell(k) in keys;
      var i :| 0 <= i < |keys| && keys[i] == spell(k);
      assert records[i] == k;
    }
    forall i, j | 0 <= i < j < |records| ensures records[i] != records[j] {
      assert spell(records[i]) == keys[i] && spell(records[j]) == keys[j];
      BeforeTotal(keys[i], keys[j]);
    }
  }

  ghost predicate Distinct<K>(records: seq<K>) {
    forall i, j :: 0 <= i < j < |records| ==> records[i] != records[j]
  }

  ghost function Elements<K>(records: seq<K>): set<K> { set k | k in records }

  lemma {:induction false} DistinctSize<K>(records: seq<K>)
    requires Distinct(records)
    ensures |Elements(records)| == |records|
    decreases |records|
  {
    if records == [] {
      assert Elements(records) == {};
    } else {
      var n := |records| - 1;
      DistinctSize(records[..n]);
      assert records == records[..n] + [records[n]];
      assert Elements(records) == Elements(records[..n]) + {records[n]};
    }
  }

  /** Remove every listed record, present or not. */
  method RemoveAll<K(!new)>(db: Table<K>, doomed: seq<K>)
    requires db.Valid() && forall k :: k in doomed ==> db.ok(k)
    modifies db
    ensures db.Valid() && db.model == old(db.model) - Elements(doomed)
  {
    for n := 0 to |doomed|
      invariant db.Valid() && db.model == old(db.model) - Elements(doomed[..n])
    {
      var _ := db.Remove(doomed[n]);
      RemoveOneMore(old(db.model), doomed, n);
    }
    assert doomed[..|doomed|] == doomed;
  }

  lemma RemoveOneMore<K>(model: map<K, string>, doomed: seq<K>, n: nat)
    requires n < |doomed|
    ensures model - Elements(doomed[..n + 1]) == model - Elements(doomed[..n]) - {doomed[n]}
  {
    assert doomed[..n + 1] == doomed[..n] + [doomed[n]];
    assert Elements(doomed[..n + 1]) == Elements(doomed[..n]) + {doomed[n]};
  }

  /** The records of a list that satisfy `hit`, in order. */
  method Filter<K>(records: seq<K>, hit: K -> bool) returns (hits: seq<K>)
    requires Distinct(records)
    ensures Distinct(hits) && forall k :: k in hits <==> k in records && hit(k)
  {
    hits := [];
    for n := 0 to |records|
      invariant Distinct(hits) && forall k :: k in hits <==> k in records[..n] && hit(k)
    {
      assert records[..n + 1] == records[..n] + [records[n]];
      assert records[n] !in hits;
      if hit(records[n]) { hits := hits + [records[n]]; }
    }
    assert records[..|records|] == records;
  }
}
