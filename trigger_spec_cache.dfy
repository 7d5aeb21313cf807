/**
 * The cache of trigger specifications: for every trigger subentry that carries
 * a `prescriptiveTriggerSpecification` attribute, the list of specifications
 * parsed from that attribute's values, keyed by the subentry's normalised
 * name. The cache is kept up to date as subentries are added, deleted,
 * modified and renamed.
 *
 * The specification parser is a parameter: a function from a value to the
 * parsed specification, or `None` where the parser raises a parse error.
 */
module TriggerSpecCache {
  import opened Wrappers

  const PRESCRIPTIVE_TRIGGER_ATTR: string := "prescriptiveTriggerSpecification"

  /** An entry's attributes: each attribute id with its values, in order. */
  type Attributes = map<string, seq<string>>

  /** A modification item: the id of the attribute it modifies and the values it carries. */
  datatype ModificationItem = ModificationItem(attributeId: string, values: seq<string>)

  /** A modify request: the name of the modified entry and the attributes it modifies. */
  datatype ModifyContext = ModifyContext(dn: string, mods: Attributes)

  /**
   * The cache's map from a subentry name to its list of specifications. A
   * stored `None` is the null a rename of an unknown name puts in the map; a
   * `None` inside a list is a value that did not parse.
   */
  type Cache<Spec> = map<string, Option<seq<Option<Spec>>>>

  predicate HasPrescriptiveTrigger(entry: Attributes) {
    PRESCRIPTIVE_TRIGGER_ATTR in entry
  }

  /** One parse result per value, in the order of the values; a failed parse gives `None`. */
  function ParseAll<Spec>(parse: string -> Option<Spec>, values: seq<string>): (specs: seq<Option<Spec>>)
    ensures |specs| == |values|
    ensures forall i | 0 <= i < |values| :: specs[i] == parse(values[i])
  {
    if values == [] then [] else [parse(values[0])] + ParseAll(parse, values[1..])
  }

  /**
   * The cache after a subentry is added: an entry without the trigger
   * attribute changes nothing; otherwise `normName` maps to one parse result
   * per attribute value, replacing what it mapped to before.
   */
  function Added<Spec>(cache: Cache<Spec>, parse: string -> Option<Spec>, normName: string, entry: Attributes)
    : (r: Cache<Spec>)
    ensures !HasPrescriptiveTrigger(entry) ==> r == cache
    ensures HasPrescriptiveTrigger(entry) ==>
      && r.Keys == cache.Keys + {normName}
      && r[normName].Some?
      && |r[normName].value| == |entry[PRESCRIPTIVE_TRIGGER_ATTR]|
      && forall i | 0 <= i < |entry[PRESCRIPTIVE_TRIGGER_ATTR]| ::
           r[normName].value[i] == parse(entry[PRESCRIPTIVE_TRIGGER_ATTR][i])
    ensures forall k | k != normName :: (k in r <==> k in cache) && (k in r ==> r[k] == cache[k])
  {
    if !HasPrescriptiveTrigger(entry) then cache
    else cache[normName := Some(ParseAll(parse, entry[PRESCRIPTIVE_TRIGGER_ATTR]))]
  }

  /**
   * The cache after a subentry is deleted: the name leaves the cache if the
   * entry carries the trigger attribute; nothing else changes.
   */
  function Deleted<Spec>(cache: Cache<Spec>, normName: string, entry: Attributes): (r: Cache<Spec>)
    ensures r.Keys == if HasPrescriptiveTrigger(entry) then cache.Keys - {normName} else cache.Keys
    ensures forall k | k in r :: r[k] == cache[k]
  {
    if !HasPrescriptiveTrigger(entry) then cache else cache - {normName}
  }

  /**
   * Some modification item holds the trigger attribute's id among its VALUES
   * (the test the array form of subentryModified performs).
   */
  predicate AnyItemContainsTriggerId(mods: seq<ModificationItem>) {
    exists i | 0 <= i < |mods| :: PRESCRIPTIVE_TRIGGER_ATTR in mods[i].values
  }

  /**
   * The cache after a subentry is modified (array form): unchanged unless the
   * entry has the trigger attribute and an item passes the test above; then
   * the subentry is deleted and added again, which is the same as adding it.
   */
  function ModifiedByItems<Spec>(
    cache: Cache<Spec>, parse: string -> Option<Spec>, normName: string,
    mods: seq<ModificationItem>, entry: Attributes): (r: Cache<Spec>)
    ensures !(HasPrescriptiveTrigger(entry) && AnyItemContainsTriggerId(mods)) ==> r == cache
    ensures HasPrescriptiveTrigger(entry) && AnyItemContainsTriggerId(mods) ==>
      r == Added(cache, parse, normName, entry)
  {
    if HasPrescriptiveTrigger(entry) && AnyItemContainsTriggerId(mods) then
      var r := Added(Deleted(cache, normName, entry), parse, normName, entry);
      assert r == Added(cache, parse, normName, entry);
      r
    else cache
  }

  /**
   * The cache after a subentry is modified (context form): unchanged unless
   * the entry has the trigger attribute and the request modifies it; then the
   * subentry named by the request is deleted and added again.
   */
  function ModifiedByContext<Spec>(
    cache: Cache<Spec>, parse: string -> Option<Spec>, context: ModifyContext, entry: Attributes)
    : (r: Cache<Spec>)
    ensures !(HasPrescriptiveTrigger(entry) && PRESCRIPTIVE_TRIGGER_ATTR in context.mods) ==> r == cache
    ensures HasPrescriptiveTrigger(entry) && PRESCRIPTIVE_TRIGGER_ATTR in context.mods ==>
      r == Added(cache, parse, context.dn, entry)
  {
    if HasPrescriptiveTrigger(entry) && PRESCRIPTIVE_TRIGGER_ATTR in context.mods then
      var r := Added(Deleted(cache, context.dn, entry), parse, context.dn, entry);
      assert r == Added(cache, parse, context.dn, entry);
      r
    else cache
  }

  /** The list a lookup returns: the stored list, or the empty list for an unknown name or a stored null. */
  function Lookup<Spec>(cache: Cache<Spec>, subentryDn: string): seq<Option<Spec>> {
    if subentryDn in cache && cache[subentryDn].Some? then cache[subentryDn].value else []
  }

  /**
   * The cache after a rename: the new name maps to what the old name mapped
   * to (null when the old name was unknown), the old name is gone unless it
   * is the new name, and every other name is untouched.
   */
  function Renamed<Spec>(cache: Cache<Spec>, oldName: string, newName: string): (r: Cache<Spec>)
    ensures newName in r && r[newName] == (if oldName in cache then cache[oldName] else None)
    ensures oldName != newName ==> oldName !in r
    ensures forall k | k != oldName && k != newName :: (k in r <==> k in cache) && (k in r ==> r[k] == cache[k])
  {
    var removed := if oldName in cache then cache[oldName] else None;
    (cache - {oldName})[newName := removed]
  }

  /** After an add, a lookup of the subentry yields one parse result per trigger value. */
  lemma LookupAfterAdded<Spec>(cache: Cache<Spec>, parse: string -> Option<Spec>, normName: string, entry: Attributes)
    requires HasPrescriptiveTrigger(entry)
    ensures Lookup(Added(cache, parse, normName, entry), normName) == ParseAll(parse, entry[PRESCRIPTIVE_TRIGGER_ATTR])
  {
  }

  /** After a delete of a subentry with the trigger attribute, a lookup of it yields nothing. */
  lemma LookupAfterDeleted<Spec>(cache: Cache<Spec>, normName: string, entry: Attributes)
    requires HasPrescriptiveTrigger(entry)
    ensures Lookup(Deleted(cache, normName, entry), normName) == []
  {
  }

  /** Deleting a subentry just added forgets it again: the rest of the cache is as it was. */
  lemma DeleteUndoesAdd<Spec>(cache: Cache<Spec>, parse: string -> Option<Spec>, normName: string, entry: Attributes)
    requires HasPrescriptiveTrigger(entry)
    ensures Deleted(Added(cache, parse, normName, entry), normName, entry) == Deleted(cache, normName, entry)
  {
  }

  /** Renaming a subentry and renaming it back restores the cache. */
  lemma RenameRoundTrip<Spec>(cache: Cache<Spec>, oldName: string, newName: string)
    requires oldName in cache && newName !in cache
    ensures Renamed(Renamed(cache, oldName, newName), newName, oldName) == cache
  {
  }

  /** Renaming an unknown name stores a null under the new name; a lookup of it yields nothing. */
  lemma RenameUnknownStoresNull<Spec>(cache: Cache<Spec>, oldName: string, newName: string)
    requires oldName !in cache
    ensures newName in Renamed(cache, oldName, newName)
    ensures Renamed(cache, oldName, newName)[newName] == None
    ensures Lookup(Renamed(cache, oldName, newName), newName) == []
  {
  }

  /**
   * The array form of subentryModified looks for the attribute id among the
   * modified VALUES: a request that replaces the trigger attribute with new
   * specifications, none of which is the id string, leaves the cache as it was.
   */
  lemma ModifiedByItemsIgnoresNewSpecifications<Spec>(
    cache: Cache<Spec>, parse: string -> Option<Spec>, normName: string, specs: seq<string>, entry: Attributes)
    requires PRESCRIPTIVE_TRIGGER_ATTR !in specs
    ensures ModifiedByItems(cache, parse, normName, [ModificationItem(PRESCRIPTIVE_TRIGGER_ATTR, specs)], entry) == cache
  {
  }

  class TriggerSpecCache<Spec> {
    /** The trigger specification parser. */
    const parse: string -> Option<Spec>
    /** Normalised subentry name to the subentry's specifications. */
    var triggerSpecs: Cache<Spec>

    /** A cache with no subentries; the initial search of the naming contexts is not modelled. */
    constructor (parse: string -> Option<Spec>)
      ensures this.parse == parse && triggerSpecs == map[]
    {
      this.parse := parse;
      triggerSpecs := map[];
    }

    method SubentryAdded(normName: string, entry: Attributes)
      modifies this
      ensures triggerSpecs == Added(old(triggerSpecs), parse, normName, entry)
    {
      if PRESCRIPTIVE_TRIGGER_ATTR !in entry {
        return;
      }
      var triggerSpec := entry[PRESCRIPTIVE_TRIGGER_ATTR];
      var subentryTriggerSpecs: seq<Option<Spec>> := [];
      var ii := 0;
      while ii < |triggerSpec|
        invariant 0 <= ii <= |triggerSpec|
        invariant |subentryTriggerSpecs| == ii
        invariant forall j | 0 <= j < ii :: subentryTriggerSpecs[j] == parse(triggerSpec[j])
      {
        subentryTriggerSpecs := subentryTriggerSpecs + [parse(triggerSpec[ii])];
        ii := ii + 1;
      }
      assert subentryTriggerSpecs == ParseAll(parse, triggerSpec);
      triggerSpecs := triggerSpecs[normName := Some(subentryTriggerSpecs)];
    }

    method SubentryDeleted(normName: string, entry: Attributes)
      modifies this
      ensures triggerSpecs == Deleted(old(triggerSpecs), normName, entry)
    {
      if !HasPrescriptiveTrigger(entry) {
        return;
      }
      triggerSpecs := triggerSpecs - {normName};
    }

    /** The array form: the modification items are scanned for the trigger attribute id. */
    method SubentryModified(normName: string, mods: seq<ModificationItem>, entry: Attributes)
      modifies this
      ensures triggerSpecs == ModifiedByItems(old(triggerSpecs), parse, normName, mods, entry)
    {
      if !HasPrescriptiveTrigger(entry) {
        return;
      }
      var isTriggerSpecModified := false;
      var ii := 0;
      while ii < |mods|
        invariant 0 <= ii <= |mods|
        invariant isTriggerSpecModified <==> exists j | 0 <= j < ii :: PRESCRIPTIVE_TRIGGER_ATTR in mods[j].values
      {
        isTriggerSpecModified := isTriggerSpecModified || PRESCRIPTIVE_TRIGGER_ATTR in mods[ii].values;
        ii := ii + 1;
      }
      if isTriggerSpecModified {
        SubentryDeleted(normName, entry);
        SubentryAdded(normName, entry);
      }
    }

    /** The context form: the request's modified attributes are looked up by the trigger attribute id. */
    method SubentryModifiedByContext(context: ModifyContext, entry: Attributes)
      modifies this
      ensures triggerSpecs == ModifiedByContext(old(triggerSpecs), parse, context, entry)
    {
      if !HasPrescriptiveTrigger(entry) {
        return;
      }
      if PRESCRIPTIVE_TRIGGER_ATTR in context.mods {
        SubentryDeleted(context.dn, entry);
        SubentryAdded(context.dn, entry);
      }
    }

    method GetSubentryTriggerSpecs(subentryDn: string) returns (specs: seq<Option<Spec>>)
      ensures specs == Lookup(triggerSpecs, subentryDn)
    {
      if subentryDn !in triggerSpecs || triggerSpecs[subentryDn].None? {
        return [];
      }
      return triggerSpecs[subentryDn].value;
    }

    method SubentryRenamed(oldName: string, newName: string)
      modifies this
      ensures triggerSpecs == Renamed(old(triggerSpecs), oldName, newName)
    {
      var removed := if oldName in triggerSpecs then triggerSpecs[oldName] else None;
      triggerSpecs := triggerSpecs - {oldName};
      triggerSpecs := triggerSpecs[newName := removed];
    }
  }
}
