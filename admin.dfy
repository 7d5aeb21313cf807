/**
 * The rules the administrative interceptor applies to the `administrativeRole`
 * attribute: which role values are valid, when a new administrative point may
 * be added, and how a modify request's administrativeRole modifications are
 * replayed, starting from the entry's attribute, before the request is passed
 * to the next interceptor.
 *
 * An attribute is modelled by the set of its string values; `None` is an
 * entry without the attribute. Forwarding to the next interceptor is the
 * outcome `Forwarded`; each exception the interceptor throws is an `Error`
 * carrying the LDAP result it stands for.
 */
module AdministrativeInterceptor {
  import opened Wrappers

  // ---------------------------------------------------------------------------
  // Administrative areas and their identifiers
  // ---------------------------------------------------------------------------

  /** The eight kinds of administrative area an administrativeRole value names. */
  datatype Area =
    | AutonomousArea
    | AccessControlSpecificArea
    | AccessControlInnerArea
    | SubSchemaAdminSpecificArea
    | CollectiveAttributeSpecificArea
    | CollectiveAttributeInnerArea
    | TriggerExecutionSpecificArea
    | TriggerExecutionInnerArea

  /** The area's name, in the mixed case the schema spells it. */
  function Name(a: Area): string {
    match a
    case AutonomousArea => "autonomousArea"
    case AccessControlSpecificArea => "accessControlSpecificArea"
    case AccessControlInnerArea => "accessControlInnerArea"
    case SubSchemaAdminSpecificArea => "subSchemaSpecificArea"
    case CollectiveAttributeSpecificArea => "collectiveAttributeSpecificArea"
    case CollectiveAttributeInnerArea => "collectiveAttributeInnerArea"
    case TriggerExecutionSpecificArea => "triggerExecutionSpecificArea"
    case TriggerExecutionInnerArea => "triggerExecutionInnerArea"
  }

  /** The area's object identifier. */
  function Oid(a: Area): string {
    match a
    case AutonomousArea => "2.5.23.1"
    case AccessControlSpecificArea => "2.5.23.2"
    case AccessControlInnerArea => "2.5.23.3"
    case SubSchemaAdminSpecificArea => "2.5.23.4"
    case CollectiveAttributeSpecificArea => "2.5.23.5"
    case CollectiveAttributeInnerArea => "2.5.23.6"
    case TriggerExecutionSpecificArea => "1.3.6.1.4.1.18060.0.4.1.5.1"
    case TriggerExecutionInnerArea => "1.3.6.1.4.1.18060.0.4.1.5.2"
  }

  /** The four specific areas an autonomous administrative point must carry. */
  predicate IsSpecific(a: Area) {
    a.AccessControlSpecificArea? || a.CollectiveAttributeSpecificArea?
    || a.SubSchemaAdminSpecificArea? || a.TriggerExecutionSpecificArea?
  }

  /** The aspects that have both a specific and an inner area. */
  datatype Aspect = AccessControl | CollectiveAttribute | TriggerExecution

  function SpecificArea(k: Aspect): Area {
    match k
    case AccessControl => AccessControlSpecificArea
    case CollectiveAttribute => CollectiveAttributeSpecificArea
    case TriggerExecution => TriggerExecutionSpecificArea
  }

  function InnerArea(k: Aspect): Area {
    match k
    case AccessControl => AccessControlInnerArea
    case CollectiveAttribute => CollectiveAttributeInnerArea
    case TriggerExecution => TriggerExecutionInnerArea
  }

  // ---------------------------------------------------------------------------
  // Role validation
  // ---------------------------------------------------------------------------

  /** ASCII lower-casing of one character. */
  function LowerChar(c: char): char {
    if 'A' <= c <= 'Z' then (c as int - 'A' as int + 'a' as int) as char else c
  }

  /** Lower-casing of a string, character by character. */
  function ToLowerCase(s: string): string {
    seq(|s|, i requires 0 <= i < |s| => LowerChar(s[i]))
  }

  /** Drops the leading spaces. */
  function TrimLeft(s: string): string {
    if |s| > 0 && s[0] == ' ' then TrimLeft(s[1..]) else s
  }

  /** Drops the trailing spaces. */
  function TrimRight(s: string): string {
    if |s| > 0 && s[|s| - 1] == ' ' then TrimRight(s[..|s| - 1]) else s
  }

  /** Drops the leading and the trailing spaces. */
  function Trim(s: string): string {
    TrimRight(TrimLeft(s))
  }

  /** The accepted role values: each area's lower-cased name and its OID. */
  const ROLES: set<string> := {
    ToLowerCase(Name(AutonomousArea)), Oid(AutonomousArea),
    ToLowerCase(Name(AccessControlSpecificArea)), Oid(AccessControlSpecificArea),
    ToLowerCase(Name(AccessControlInnerArea)), Oid(AccessControlInnerArea),
    ToLowerCase(Name(CollectiveAttributeSpecificArea)), Oid(CollectiveAttributeSpecificArea),
    ToLowerCase(Name(CollectiveAttributeInnerArea)), Oid(CollectiveAttributeInnerArea),
    ToLowerCase(Name(SubSchemaAdminSpecificArea)), Oid(SubSchemaAdminSpecificArea),
    ToLowerCase(Name(TriggerExecutionSpecificArea)), Oid(TriggerExecutionSpecificArea),
    ToLowerCase(Name(TriggerExecutionInnerArea)), Oid(TriggerExecutionInnerArea)
  }

  predicate IsValidRole(role: string) {
    ToLowerCase(Trim(role)) in ROLES
  }

  /** `key` is the lower-cased name or the OID of area `a`. */
  predicate Denotes(key: string, a: Area) {
    key == ToLowerCase(Name(a)) || key == Oid(a)
  }

  /** A role is valid exactly when, trimmed and lower-cased, it names one of the eight areas. */
  lemma ValidRoleNamesAnArea(role: string)
    ensures IsValidRole(role) <==> exists a :: Denotes(ToLowerCase(Trim(role)), a)
  {
    var key := ToLowerCase(Trim(role));
    if IsValidRole(role) {
      assert Denotes(key, AutonomousArea) || Denotes(key, AccessControlSpecificArea)
        || Denotes(key, AccessControlInnerArea) || Denotes(key, SubSchemaAdminSpecificArea)
        || Denotes(key, CollectiveAttributeSpecificArea) || Denotes(key, CollectiveAttributeInnerArea)
        || Denotes(key, TriggerExecutionSpecificArea) || Denotes(key, TriggerExecutionInnerArea);
    }
  }

  /** Every area's name, also lower-cased, and its OID are valid roles. */
  lemma AreaIdentifiersAreValid(a: Area)
    ensures IsValidRole(Name(a)) && IsValidRole(ToLowerCase(Name(a))) && IsValidRole(Oid(a))
  {
    var name, oid := Name(a), Oid(a);
    assert name[0] != ' ' && name[|name| - 1] != ' ';
    assert oid[0] != ' ' && oid[|oid| - 1] != ' ';
    NoSpaceAtEnds(name);
    NoSpaceAtEnds(oid);
    assert forall i | 0 <= i < |oid| :: !('A' <= oid[i] <= 'Z');
    assert ToLowerCase(oid) == oid;
    ValidRoleIgnoresCase(name);
  }

  /** A string that neither starts nor ends with a space is its own trim. */
  lemma NoSpaceAtEnds(s: string)
    requires s != [] ==> s[0] != ' ' && s[|s| - 1] != ' '
    ensures Trim(s) == s
  {
  }

  lemma LowerIdempotent(s: string)
    ensures ToLowerCase(ToLowerCase(s)) == ToLowerCase(s)
  {
  }

  lemma {:induction false} TrimLeftLower(s: string)
    ensures TrimLeft(ToLowerCase(s)) == ToLowerCase(TrimLeft(s))
  {
    if |s| > 0 && s[0] == ' ' {
      assert ToLowerCase(s)[1..] == ToLowerCase(s[1..]);
      TrimLeftLower(s[1..]);
    }
  }

  lemma {:induction false} TrimRightLower(s: string)
    ensures TrimRight(ToLowerCase(s)) == ToLowerCase(TrimRight(s))
  {
    if |s| > 0 && s[|s| - 1] == ' ' {
      assert ToLowerCase(s)[..|s| - 1] == ToLowerCase(s[..|s| - 1]);
      TrimRightLower(s[..|s| - 1]);
    }
  }

  /** Validity does not depend on the case of the role value. */
  lemma ValidRoleIgnoresCase(role: string)
    ensures IsValidRole(ToLowerCase(role)) == IsValidRole(role)
  {
    TrimLeftLower(role);
    TrimRightLower(TrimLeft(role));
    LowerIdempotent(Trim(role));
  }

  lemma {:induction false} TrimIgnoresTrailingSpace(s: string)
    ensures Trim(s + " ") == Trim(s)
  {
    if s == [] {
      assert TrimLeft(" ") == TrimLeft("");
    } else if s[0] == ' ' {
      assert (s + " ")[1..] == s[1..] + " ";
      TrimIgnoresTrailingSpace(s[1..]);
    } else {
      assert (s + " ")[..|s|] == s;
    }
  }

  /** Validity does not depend on spaces around the role value. */
  lemma ValidRoleIgnoresPadding(role: string)
    ensures IsValidRole(" " + role) == IsValidRole(role)
    ensures IsValidRole(role + " ") == IsValidRole(role)
  {
    assert (" " + role)[1..] == role;
    TrimIgnoresTrailingSpace(role);
  }

  // ---------------------------------------------------------------------------
  // Outcomes
  // ---------------------------------------------------------------------------

  /** The LDAP results the interceptor raises. */
  datatype ErrorKind =
    | UnwillingToPerform      // LdapUnwillingToPerformException
    | InvalidAttributeValue   // LdapInvalidAttributeValueException (invalid attribute syntax)
    | AttributeInUse          // LdapAttributeInUseException
    | NoSuchAttribute         // LdapNoSuchAttributeException

  /** Either the request is passed on to the next interceptor, or it is refused. */
  datatype Outcome = Forwarded | Error(kind: ErrorKind)

  datatype Result<T> = Ok(value: T) | Fail(kind: ErrorKind)

  // ---------------------------------------------------------------------------
  // Adding an entry
  // ---------------------------------------------------------------------------

  /** The role values name area `a`, by its name or by its OID (values compared exactly). */
  predicate Has(role: set<string>, a: Area) {
    Name(a) in role || Oid(a) in role
  }

  /** The role values carry both the specific and the inner area of aspect `k`. */
  predicate Mixes(role: set<string>, k: Aspect) {
    Has(role, SpecificArea(k)) && Has(role, InnerArea(k))
  }

  /**
   * The decision taken when an entry is added, given its administrativeRole
   * attribute. An autonomous point (named by its name) must carry all four
   * specific areas; any other point must not carry a specific and the inner
   * area of the same aspect.
   */
  function Add(adminPoint: Option<set<string>>): (o: Outcome)
    ensures adminPoint.None? ==> o == Forwarded
    ensures o == Forwarded || o == Error(UnwillingToPerform)
    ensures adminPoint.Some? && Name(AutonomousArea) in adminPoint.value ==>
      (o == Forwarded <==> forall a :: IsSpecific(a) ==> Has(adminPoint.value, a))
    ensures adminPoint.Some? && Name(AutonomousArea) !in adminPoint.value ==>
      (o == Forwarded <==> forall k :: !Mixes(adminPoint.value, k))
  {
    match adminPoint
    case None => Forwarded
    case Some(role) =>
      if Name(AutonomousArea) in role then
        if && Has(role, AccessControlSpecificArea)
           && Has(role, CollectiveAttributeSpecificArea)
           && Has(role, SubSchemaAdminSpecificArea)
           && Has(role, TriggerExecutionSpecificArea)
        then Forwarded
        else Error(UnwillingToPerform)
      else if Mixes(role, AccessControl) || Mixes(role, CollectiveAttribute) || Mixes(role, TriggerExecution)
      then Error(UnwillingToPerform)
      else Forwarded
  }

  /**
   * Only the autonomous area's NAME selects the autonomous check: a point that
   * names the autonomous area by its OID alone, without any specific area,
   * is accepted.
   */
  lemma AutonomousAreaByOidIsNotChecked()
    ensures Add(Some({Oid(AutonomousArea)})) == Forwarded
    ensures Add(Some({Name(AutonomousArea)})) == Error(UnwillingToPerform)
  {
    assert !Has({Name(AutonomousArea)}, AccessControlSpecificArea);
  }

  // ---------------------------------------------------------------------------
  // Modifying an entry
  // ---------------------------------------------------------------------------

  const ADMINISTRATIVE_ROLE_AT: string := "administrativeRole"

  datatype ModificationOperation = AddAttribute | RemoveAttribute | ReplaceAttribute

  /** One modification item: the operation, the attribute type it targets and its values. */
  datatype Modification = Modification(operation: ModificationOperation, attributeType: string, values: seq<string>)

  function Elements(values: seq<string>): set<string> {
    set v | v in values
  }

  /**
   * Value `i` of an ADD may join `role`: it is valid, and neither `role` nor an
   * earlier value of the same modification holds it.
   */
  predicate AddableAt(role: set<string>, values: seq<string>, i: int)
    requires 0 <= i < |values|
  {
    IsValidRole(values[i]) && values[i] !in role && values[i] !in values[..i]
  }

  /**
   * Value `i` of a REMOVE may leave `role`: it is valid, `role` holds it, and
   * no earlier value of the same modification already removed it.
   */
  predicate RemovableAt(role: set<string>, values: seq<string>, i: int)
    requires 0 <= i < |values|
  {
    IsValidRole(values[i]) && values[i] in role && values[i] !in values[..i]
  }

  /** Adds the values one by one, refusing an invalid value and a value already present. */
  function AddRoles(role: set<string>, values: seq<string>): (r: Result<set<string>>)
    ensures r.Fail? ==> r.kind == InvalidAttributeValue || r.kind == AttributeInUse
    decreases |values|
  {
    if values == [] then Ok(role)
    else if !IsValidRole(values[0]) then Fail(InvalidAttributeValue)
    else if values[0] in role then Fail(AttributeInUse)
    else AddRoles(role + {values[0]}, values[1..])
  }

  /** Removes the values one by one, refusing an invalid value and a value not present. */
  function RemoveRoles(role: set<string>, values: seq<string>): (r: Result<set<string>>)
    ensures r.Fail? ==> r.kind == InvalidAttributeValue || r.kind == NoSuchAttribute
    decreases |values|
  {
    if values == [] then Ok(role)
    else if !IsValidRole(values[0]) then Fail(InvalidAttributeValue)
    else if values[0] !in role then Fail(NoSuchAttribute)
    else RemoveRoles(role - {values[0]}, values[1..])
  }

  /** Index `i` is the first value of `values` that cannot be added to `role`. */
  predicate FirstUnaddable(role: set<string>, values: seq<string>, i: int) {
    && 0 <= i < |values|
    && !AddableAt(role, values, i)
    && forall j | 0 <= j < i :: AddableAt(role, values, j)
  }

  /** Index `i` is the first value of `values` that cannot be removed from `role`. */
  predicate FirstUnremovable(role: set<string>, values: seq<string>, i: int) {
    && 0 <= i < |values|
    && !RemovableAt(role, values, i)
    && forall j | 0 <= j < i :: RemovableAt(role, values, j)
  }

  /**
   * ADD succeeds exactly when every value is addable, and then yields the old
   * set plus the values; otherwise the first value that is not addable decides
   * the error: an invalid one gives InvalidAttributeValue, a present one
   * AttributeInUse.
   */
  lemma {:induction false} AddRolesCharacterised(role: set<string>, values: seq<string>)
    ensures AddRoles(role, values).Ok? <==> forall i | 0 <= i < |values| :: AddableAt(role, values, i)
    ensures AddRoles(role, values).Ok? ==> AddRoles(role, values).value == role + Elements(values)
    ensures forall i | FirstUnaddable(role, values, i) ::
      AddRoles(role, values) == Fail(if IsValidRole(values[i]) then AttributeInUse else InvalidAttributeValue)
    decreases |values|
  {
    if values == [] {
      return;
    }
    var v, rest := values[0], values[1..];
    assert values[..0] == [];
    if !(IsValidRole(v) && v !in role) {
      assert !AddableAt(role, values, 0);
      forall i | FirstUnaddable(role, values, i)
        ensures AddRoles(role, values) == Fail(if IsValidRole(values[i]) then AttributeInUse else InvalidAttributeValue)
      {
        assert i == 0;
      }
      return;
    }
    AddRolesCharacterised(role + {v}, rest);
    assert AddableAt(role, values, 0);
    forall i | 1 <= i < |values|
      ensures AddableAt(role, values, i) <==> AddableAt(role + {v}, rest, i - 1)
    {
      assert values[..i] == [v] + rest[..i - 1];
    }
    if AddRoles(role, values).Ok? {
      forall i | 0 <= i < |values| ensures AddableAt(role, values, i) {
        if i > 0 {
          assert AddableAt(role + {v}, rest, i - 1);
        }
      }
      assert Elements(values) == {v} + Elements(rest);
    }
    if forall i | 0 <= i < |values| :: AddableAt(role, values, i) {
      forall i | 0 <= i < |rest| ensures AddableAt(role + {v}, rest, i) {
        assert AddableAt(role, values, i + 1);
      }
    }
    forall i | FirstUnaddable(role, values, i)
      ensures AddRoles(role, values) == Fail(if IsValidRole(values[i]) then AttributeInUse else InvalidAttributeValue)
    {
      forall j | 0 <= j < i - 1 ensures AddableAt(role + {v}, rest, j) {
        assert AddableAt(role, values, j + 1);
      }
      assert FirstUnaddable(role + {v}, rest, i - 1);
    }
  }

  /**
   * REMOVE succeeds exactly when every value is removable, and then yields the
   * old set minus the values; otherwise the first value that is not removable
   * decides the error, validity being checked before presence.
   */
  lemma {:induction false} RemoveRolesCharacterised(role: set<string>, values: seq<string>)
    ensures RemoveRoles(role, values).Ok? <==> forall i | 0 <= i < |values| :: RemovableAt(role, values, i)
    ensures RemoveRoles(role, values).Ok? ==> RemoveRoles(role, values).value == role - Elements(values)
    ensures forall i | FirstUnremovable(role, values, i) ::
      RemoveRoles(role, values) == Fail(if IsValidRole(values[i]) then NoSuchAttribute else InvalidAttributeValue)
    decreases |values|
  {
    if values == [] {
      return;
    }
    var v, rest := values[0], values[1..];
    assert values[..0] == [];
    if !(IsValidRole(v) && v in role) {
      assert !RemovableAt(role, values, 0);
      forall i | FirstUnremovable(role, values, i)
        ensures RemoveRoles(role, values) == Fail(if IsValidRole(values[i]) then NoSuchAttribute else InvalidAttributeValue)
      {
        assert i == 0;
      }
      return;
    }
    RemoveRolesCharacterised(role - {v}, rest);
    assert RemovableAt(role, values, 0);
    forall i | 1 <= i < |values|
      ensures RemovableAt(role, values, i) <==> RemovableAt(role - {v}, rest, i - 1)
    {
      assert values[..i] == [v] + rest[..i - 1];
    }
    if RemoveRoles(role, values).Ok? {
      forall i | 0 <= i < |values| ensures RemovableAt(role, values, i) {
        if i > 0 {
          assert RemovableAt(role - {v}, rest, i - 1);
        }
      }
      assert Elements(values) == {v} + Elements(rest);
    }
    if forall i | 0 <= i < |values| :: RemovableAt(role, values, i) {
      forall i | 0 <= i < |rest| ensures RemovableAt(role - {v}, rest, i) {
        assert RemovableAt(role, values, i + 1);
      }
    }
    forall i | FirstUnremovable(role, values, i)
      ensures RemoveRoles(role, values) == Fail(if IsValidRole(values[i]) then NoSuchAttribute else InvalidAttributeValue)
    {
      forall j | 0 <= j < i - 1 ensures RemovableAt(role - {v}, rest, j) {
        assert RemovableAt(role, values, j + 1);
      }
      assert FirstUnremovable(role - {v}, rest, i - 1);
    }
  }

  /** Removing what an ADD just added gives back the attribute as it was. */
  lemma AddThenRemoveRestores(role: set<string>, values: seq<string>)
    requires AddRoles(role, values).Ok?
    ensures RemoveRoles(AddRoles(role, values).value, values) == Ok(role)
  {
    AddRolesCharacterised(role, values);
    var added := AddRoles(role, values).value;
    RemoveRolesCharacterised(added, values);
    forall i | 0 <= i < |values| ensures RemovableAt(added, values, i) {
      assert AddableAt(role, values, i);
    }
    assert added - Elements(values) == role;
  }

  function Lift(r: Result<set<string>>): Result<Option<set<string>>> {
    match r
    case Ok(s) => Ok(Some(s))
    case Fail(k) => Fail(k)
  }

  /**
   * One modification replayed against the administrativeRole
   * attribute `adminRole`: the new attribute values, or the error raised.
   */
  function ApplyModification(adminRole: Option<set<string>>, m: Modification): (r: Result<Option<set<string>>>)
    ensures m.attributeType != ADMINISTRATIVE_ROLE_AT ==> r == Ok(adminRole)
    ensures r.Fail? ==> r.kind != UnwillingToPerform
  {
    if m.attributeType != ADMINISTRATIVE_ROLE_AT then Ok(adminRole)
    else match m.operation
      case AddAttribute =>
        if adminRole.None? then
          // The attribute is created from the first value alone, without validation.
          Ok(Some(if m.values == [] then {} else {m.values[0]}))
        else Lift(AddRoles(adminRole.value, m.values))
      case RemoveAttribute =>
        if adminRole.None? then Fail(NoSuchAttribute)
        else if m.values == [] then Ok(None)
        else Lift(RemoveRoles(adminRole.value, m.values))
      case ReplaceAttribute =>
        if adminRole.None? then Fail(NoSuchAttribute)
        else if m.values == [] then Ok(None)
        else Lift(AddRoles({}, m.values))
  }

  /** ADD on an absent attribute never fails: it creates the attribute from at most its first value. */
  lemma AddToAbsentRole(values: seq<string>)
    ensures var r := ApplyModification(None, Modification(AddAttribute, ADMINISTRATIVE_ROLE_AT, values));
      && r.Ok? && r.value.Some?
      && r.value.value <= Elements(values) && |r.value.value| <= 1
      && (values != [] ==> values[0] in r.value.value)
  {
  }

  /** ADD on a present attribute: accepted exactly when every value is addable, yielding the union. */
  lemma AddToPresentRole(role: set<string>, values: seq<string>)
    ensures var r := ApplyModification(Some(role), Modification(AddAttribute, ADMINISTRATIVE_ROLE_AT, values));
      && (r.Ok? <==> forall i | 0 <= i < |values| :: AddableAt(role, values, i))
      && (r.Ok? ==> r.value == Some(role + Elements(values)))
      && (forall i | FirstUnaddable(role, values, i) ::
            r == Fail(if IsValidRole(values[i]) then AttributeInUse else InvalidAttributeValue))
  {
    AddRolesCharacterised(role, values);
  }

  /**
   * REMOVE: refused on an absent attribute; with no values it deletes the
   * attribute; otherwise accepted exactly when every value is removable,
   * yielding the difference.
   */
  lemma RemoveFromRole(adminRole: Option<set<string>>, values: seq<string>)
    ensures var r := ApplyModification(adminRole, Modification(RemoveAttribute, ADMINISTRATIVE_ROLE_AT, values));
      && (adminRole.None? ==> r == Fail(NoSuchAttribute))
      && (adminRole.Some? && values == [] ==> r == Ok(None))
      && (adminRole.Some? && values != [] ==>
            && (r.Ok? <==> forall i | 0 <= i < |values| :: RemovableAt(adminRole.value, values, i))
            && (r.Ok? ==> r.value == Some(adminRole.value - Elements(values)))
            && (forall i | FirstUnremovable(adminRole.value, values, i) ::
                  r == Fail(if IsValidRole(values[i]) then NoSuchAttribute else InvalidAttributeValue)))
  {
    if adminRole.Some? {
      RemoveRolesCharacterised(adminRole.value, values);
    }
  }

  /**
   * REPLACE: refused on an absent attribute; with no values it deletes the
   * attribute; otherwise the old values are discarded and the attribute holds
   * exactly the new values, provided they are valid and pairwise distinct.
   */
  lemma ReplaceRole(adminRole: Option<set<string>>, values: seq<string>)
    ensures var r := ApplyModification(adminRole, Modification(ReplaceAttribute, ADMINISTRATIVE_ROLE_AT, values));
      && (adminRole.None? ==> r == Fail(NoSuchAttribute))
      && (adminRole.Some? && values == [] ==> r == Ok(None))
      && (adminRole.Some? && values != [] ==>
            && (r.Ok? <==> forall i | 0 <= i < |values| :: AddableAt({}, values, i))
            && (r.Ok? ==> r.value == Some(Elements(values)))
            && (forall i | FirstUnaddable({}, values, i) ::
                  r == Fail(if IsValidRole(values[i]) then AttributeInUse else InvalidAttributeValue)))
  {
    AddRolesCharacterised({}, values);
    assert {} + Elements(values) == Elements(values);
  }

  /** The modifications replayed in order; the first error aborts the replay. */
  function Replay(adminRole: Option<set<string>>, mods: seq<Modification>): (r: Result<Option<set<string>>>)
    ensures r.Fail? ==> r.kind != UnwillingToPerform
    ensures (forall i | 0 <= i < |mods| :: mods[i].attributeType != ADMINISTRATIVE_ROLE_AT) ==> r == Ok(adminRole)
    decreases |mods|
  {
    if mods == [] then Ok(adminRole)
    else
      match ApplyModification(adminRole, mods[0])
      case Fail(k) => Fail(k)
      case Ok(next) => Replay(next, mods[1..])
  }

  /** The outcome of a modify request, given the entry's original administrativeRole. */
  function ModifyOutcome(original: Option<set<string>>, mods: seq<Modification>): Outcome {
    match Replay(original, mods)
    case Ok(_) => Forwarded
    case Fail(k) => Error(k)
  }

  /** The modifications that target administrativeRole, in order. */
  function RoleModifications(mods: seq<Modification>): (r: seq<Modification>)
    ensures forall i | 0 <= i < |r| :: r[i].attributeType == ADMINISTRATIVE_ROLE_AT
    decreases |mods|
  {
    if mods == [] then []
    else if mods[0].attributeType == ADMINISTRATIVE_ROLE_AT then [mods[0]] + RoleModifications(mods[1..])
    else RoleModifications(mods[1..])
  }

  /** Modifications of other attribute types do not affect the replay. */
  lemma {:induction false} ReplayIgnoresOtherAttributes(adminRole: Option<set<string>>, mods: seq<Modification>)
    ensures Replay(adminRole, mods) == Replay(adminRole, RoleModifications(mods))
    decreases |mods|
  {
    if mods != [] {
      var rest := RoleModifications(mods[1..]);
      if mods[0].attributeType == ADMINISTRATIVE_ROLE_AT {
        assert RoleModifications(mods) == [mods[0]] + rest;
        assert ([mods[0]] + rest)[1..] == rest;
        match ApplyModification(adminRole, mods[0])
        case Fail(_) =>
        case Ok(next) => ReplayIgnoresOtherAttributes(next, mods[1..]);
      } else {
        ReplayIgnoresOtherAttributes(adminRole, mods[1..]);
      }
    }
  }

  /**
   * Replaying two lists in sequence: an error in the first aborts the whole
   * request and the second is never looked at; otherwise the second is replayed
   * from where the first left the attribute.
   */
  lemma {:induction false} ReplayConcat(adminRole: Option<set<string>>, first: seq<Modification>, second: seq<Modification>)
    ensures Replay(adminRole, first + second) ==
      match Replay(adminRole, first)
      case Fail(k) => Fail(k)
      case Ok(mid) => Replay(mid, second)
    decreases |first|
  {
    if first == [] {
      assert first + second == second;
    } else {
      assert (first + second)[0] == first[0];
      assert (first + second)[1..] == first[1..] + second;
      match ApplyModification(adminRole, first[0])
      case Fail(_) =>
      case Ok(next) => ReplayConcat(next, first[1..], second);
    }
  }

  /** A modify request that adds roles and then removes the same roles leaves the attribute as it was. */
  lemma AddThenRemoveRequestRestores(role: set<string>, values: seq<string>)
    requires values != []
    requires forall i | 0 <= i < |values| :: AddableAt(role, values, i)
    ensures Replay(Some(role), [Modification(AddAttribute, ADMINISTRATIVE_ROLE_AT, values),
                                Modification(RemoveAttribute, ADMINISTRATIVE_ROLE_AT, values)]) == Ok(Some(role))
  {
    var add := Modification(AddAttribute, ADMINISTRATIVE_ROLE_AT, values);
    var remove := Modification(RemoveAttribute, ADMINISTRATIVE_ROLE_AT, values);
    AddRolesCharacterised(role, values);
    AddThenRemoveRestores(role, values);
    assert ApplyModification(Some(role), add) == Ok(Some(AddRoles(role, values).value));
    assert [add, remove][1..] == [remove];
    assert [remove][1..] == [];
  }

  /**
   * The interceptor's modify: replays the administrativeRole modifications,
   * starting from the original entry's attribute values, and forwards the
   * request only if none of them raised.
   */
  method Modify(original: Option<set<string>>, modifications: seq<Modification>) returns (outcome: Outcome)
    ensures outcome == ModifyOutcome(original, modifications)
  {
    var modifiedAdminRole := original;
    var i := 0;
    while i < |modifications|
      invariant 0 <= i <= |modifications|
      invariant Replay(original, modifications) == Replay(modifiedAdminRole, modifications[i..])
    {
      var modification := modifications[i];
      assert modifications[i..][1..] == modifications[i + 1..];
      if modification.attributeType != ADMINISTRATIVE_ROLE_AT {
        i := i + 1;
        continue;
      }
      var values := modification.values;
      match modification.operation {
        case AddAttribute =>
          if modifiedAdminRole == None {
            modifiedAdminRole := Some(if values == [] then {} else {values[0]});
          } else {
            var role := modifiedAdminRole.value;
            var j := 0;
            while j < |values|
              invariant 0 <= j <= |values|
              invariant AddRoles(modifiedAdminRole.value, values) == AddRoles(role, values[j..])
            {
              var value := values[j];
              assert values[j..][1..] == values[j + 1..];
              if !IsValidRole(value) {
                return Error(InvalidAttributeValue);
              }
              if value in role {
                return Error(AttributeInUse);
              }
              role := role + {value};
              j := j + 1;
            }
            modifiedAdminRole := Some(role);
          }
        case RemoveAttribute =>
          if modifiedAdminRole == None {
            return Error(NoSuchAttribute);
          }
          if values == [] {
            modifiedAdminRole := None;
          } else {
            var role := modifiedAdminRole.value;
            var j := 0;
            while j < |values|
              invariant 0 <= j <= |values|
              invariant RemoveRoles(modifiedAdminRole.value, values) == RemoveRoles(role, values[j..])
            {
              var value := values[j];
              assert values[j..][1..] == values[j + 1..];
              if !IsValidRole(value) {
                return Error(InvalidAttributeValue);
              }
              if value !in role {
                return Error(NoSuchAttribute);
              }
              role := role - {value};
              j := j + 1;
            }
            modifiedAdminRole := Some(role);
          }
        case ReplaceAttribute =>
          if modifiedAdminRole == None {
            return Error(NoSuchAttribute);
          }
          if values == [] {
            modifiedAdminRole := None;
          } else {
            var role: set<string> := {};
            var j := 0;
            while j < |values|
              invariant 0 <= j <= |values|
              invariant AddRoles({}, values) == AddRoles(role, values[j..])
            {
              var value := values[j];
              assert values[j..][1..] == values[j + 1..];
              if !IsValidRole(value) {
                return Error(InvalidAttributeValue);
              }
              if value in role {
                return Error(AttributeInUse);
              }
              role := role + {value};
              j := j + 1;
            }
            modifiedAdminRole := Some(role);
          }
      }
      i := i + 1;
    }
    return Forwarded;
  }
}
