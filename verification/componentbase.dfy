/**
 * What the component metaclass does to a component class: tagging every attrs field with its
 * kind, turning the declared `custom_id` into a full custom id, keeping the class's manager,
 * and deciding whether an interaction is meant for the class.
 */
module ComponentBase {
  import opened Wrappers
  import opened Fields
  import Text
  import CustomId
  import Values
  import Parsers

  // ---------------------------------------------------------------------------------------
  // Field kinds.

  /**
   * The field `_set_field_defaults` leaves: unchanged when it already carries `FIELDTYPE`,
   * otherwise tagged as a custom-id field with its parser entry reset to `None`.
   */
  function WithFieldDefault(f: Field): (r: Field)
    ensures r.(metadata := f.metadata) == f
    ensures FieldTypeKey in r.metadata
    ensures FieldTypeKey in f.metadata ==> r == f
    ensures FieldTypeKey !in f.metadata ==> r.metadata[FieldTypeKey] == MFieldType(CustomIdField) && ExplicitParser(r).None?
    ensures forall k :: k in f.metadata && k != ParserKey ==> k in r.metadata && r.metadata[k] == f.metadata[k]
    ensures forall k :: k in r.metadata ==> k in f.metadata || k == FieldTypeKey || k == ParserKey
  {
    if FieldTypeKey in f.metadata then f
    else f.(metadata := f.metadata[FieldTypeKey := MFieldType(CustomIdField)][ParserKey := MParser(None)])
  }

  /** Every field tagged, in declaration order. */
  function FieldDefaults(fs: seq<Field>): (r: seq<Field>)
    ensures |r| == |fs| && forall i :: 0 <= i < |fs| ==> r[i] == WithFieldDefault(fs[i])
  {
    seq(|fs|, i requires 0 <= i < |fs| => WithFieldDefault(fs[i]))
  }

  /** `_set_field_defaults(cls, attributes)`: a new list with every attribute tagged, in order. */
  method SetFieldDefaults(attributes: seq<Field>) returns (r: seq<Field>)
    ensures r == FieldDefaults(attributes)
  {
    r := [];
    for i := 0 to |attributes|
      invariant r == FieldDefaults(attributes[..i])
    {
      var attribute := attributes[i];
      if FieldTypeKey in attribute.metadata {
        r := r + [attribute];
      } else {
        var evolved := attribute.(metadata := attribute.metadata[FieldTypeKey := MFieldType(CustomIdField)][ParserKey := MParser(None)]);
        r := r + [evolved];
      }
    }
    assert attributes[..|attributes|] == attributes;
  }

  /** Tagging is idempotent: a second pass changes nothing. */
  lemma FieldDefaultsIdempotent(fs: seq<Field>)
    ensures FieldDefaults(FieldDefaults(fs)) == FieldDefaults(fs)
  {
  }

  /**
   * After tagging, every attribute that had no field type is selected as a custom-id field,
   * and none as internal.
   */
  lemma {:induction false} UntaggedBecomeCustomId(fs: seq<Field>)
    requires forall i :: 0 <= i < |fs| ==> FieldTypeKey !in fs[i].metadata
    ensures OfKind(FieldDefaults(fs), CustomIdField) == FieldDefaults(fs)
    ensures OfKind(FieldDefaults(fs), InternalField) == []
  {
    if fs != [] {
      var t := FieldDefaults(fs);
      assert t[1..] == FieldDefaults(fs[1..]);
      UntaggedBecomeCustomId(fs[1..]);
    }
  }

  /**
   * An attribute without a field type loses its `PARSER` entry when tagged: it is reset to
   * `None`, here for one made by `fields.field(parser=p)`, which sets no field type.
   */
  lemma ExplicitParserReset(name: string, ty: Option<Values.Ty>, default: Values.Value, parser: Option<Parsers.Parser>)
    ensures ExplicitParser(WithFieldDefault(MakeField(name, ty, default, parser))).None?
  {
  }

  // ---------------------------------------------------------------------------------------
  // The custom id of a component class.

  /** What a class declares as `custom_id`: an `AutoID`, a `CustomID`, a plain string, or anything else. */
  datatype IdAttr =
    | AutoIdAttr(auto: CustomId.AutoID)
    | CustomIdAttr(cid: CustomId.CustomID)
    | StrAttr(text: string)
    | OtherAttr

  /**
   * The custom id `_finalise_custom_id` leaves on the class, or the exception it raises: an
   * `AutoID` is completed from the class, a `CustomID` is validated and kept, a string is
   * replaced by a field-less custom id named after the class, anything else is a `TypeError`.
   */
  function Finalised(cls: ComponentClass, a: IdAttr): (r: Result<CustomId.CustomID>)
    ensures a.AutoIdAttr? ==> r == CustomId.FromAutoId(cls, a.auto)
    ensures a.CustomIdAttr? ==> (r.Ok? <==> CustomId.Validate(a.cid, cls) == Pass)
    ensures a.CustomIdAttr? && r.Ok? ==> r.value == a.cid
    ensures a.CustomIdAttr? && r.Err? ==> r.exc == ValueError
    ensures a.StrAttr? && r.Ok? ==> r.value.name == cls.name && r.value.fields == [] && r.value.sep == CustomId.DEFAULT_SEP
    ensures a.OtherAttr? ==> r == Err(TypeError)
  {
    match a
    case AutoIdAttr(auto) => CustomId.FromAutoId(cls, auto)
    case CustomIdAttr(cid) =>
      if CustomId.Validate(cid, cls).Fail? then Err(CustomId.Validate(cid, cls).exc) else Ok(cid)
    case StrAttr(_) => CustomId.New([], cls.name, CustomId.DEFAULT_SEP)
    case OtherAttr => Err(TypeError)
  }

  /** An auto id or a user custom id, once finalised, covers every non-internal field. */
  lemma FinalisedValidates(cls: ComponentClass, a: IdAttr)
    requires !a.StrAttr? && Finalised(cls, a).Ok?
    ensures CustomId.Validate(Finalised(cls, a).value, cls) == Pass
  {
    if a.AutoIdAttr? {
      var name := if a.auto.name.Some? && a.auto.name.value != "" then a.auto.name.value else cls.name;
      var sep := if a.auto.sep.Some? && a.auto.sep.value != "" then a.auto.sep.value else CustomId.DEFAULT_SEP;
      CustomId.FromComponentValidates(cls, Some(name), sep);
    }
  }

  /**
   * A plain string's text is discarded, and the field-less custom id that replaces it is not
   * validated: a class with a non-internal field still gets it, although it would not validate.
   */
  lemma StaticIdUnvalidated(cls: ComponentClass, s: string, k: nat)
    requires CustomId.NoBraces(cls.name)
    requires k < |cls.fields| && !IsInternal(cls.fields[k])
    ensures Finalised(cls, StrAttr(s)).Ok?
    ensures Finalised(cls, StrAttr(s)) == Finalised(cls, StrAttr(""))
    ensures CustomId.Validate(Finalised(cls, StrAttr(s)).value, cls) == Fail(ValueError)
  {
    CustomId.NewSucceeds([], cls.name, CustomId.DEFAULT_SEP);
    var fs := GetFields(cls, false);
    assert cls.fields[k] in fs;
    var j :| 0 <= j < |fs| && fs[j] == cls.fields[k];
    assert fs[j].name !in Finalised(cls, StrAttr(s)).value.fields;
  }

  // ---------------------------------------------------------------------------------------
  // Interactions.

  /** The interactions a component can receive, with the custom id each carries. */
  datatype Interaction =
    | ModalInteraction(customId: string)
    | MessageInteraction(componentCustomId: string)
    | OtherInteraction

  /** `_extract_custom_id(interaction)`: a modal's or a message component's custom id. */
  function ExtractCustomId(i: Interaction): (r: Result<string>)
    ensures i.ModalInteraction? ==> r == Ok(i.customId)
    ensures i.MessageInteraction? ==> r == Ok(i.componentCustomId)
    ensures i.OtherInteraction? ==> r == Err(TypeError)
  {
    match i
    case ModalInteraction(s) => Ok(s)
    case MessageInteraction(s) => Ok(s)
    case OtherInteraction => Err(TypeError)
  }

  /** The manager a component class is subscribed to, by identity. */
  type ManagerId = nat

  /** A component class as the metaclass leaves it: its fields, custom id and manager. */
  class ComponentType {
    const cls: ComponentClass
    var customId: IdAttr
    var manager: Option<ManagerId>
    /** The managers this class was unsubscribed from (non-recursively), in call order. */
    var unsubscribedFrom: seq<ManagerId>

    constructor(cls: ComponentClass, customId: IdAttr)
      ensures this.cls == cls && this.customId == customId
      ensures manager.None? && unsubscribedFrom == []
    {
      this.cls := cls;
      this.customId := customId;
      manager := None;
      unsubscribedFrom := [];
    }

    /** `_finalise_custom_id(cls)`: the declared custom id replaced by its finalised form. */
    method FinaliseCustomId() returns (r: Outcome)
      modifies this
      ensures r.Fail? <==> Finalised(cls, old(customId)).Err?
      ensures r.Fail? ==> r.exc == Finalised(cls, old(customId)).exc && customId == old(customId)
      ensures r.Pass? ==> customId == CustomIdAttr(Finalised(cls, old(customId)).value)
      ensures manager == old(manager) && unsubscribedFrom == old(unsubscribedFrom)
    {
      r := Pass;
      match customId
      case AutoIdAttr(auto) =>
        var cid := CustomId.FromAutoId(cls, auto);
        if cid.Err? {
          return Fail(cid.exc);
        }
        customId := CustomIdAttr(cid.value);
      case CustomIdAttr(cid) =>
        r := CustomId.Validate(cid, cls);
        return;
      case StrAttr(_) =>
        var cid := CustomId.New([], cls.name, CustomId.DEFAULT_SEP);
        if cid.Err? {
          return Fail(cid.exc);
        }
        customId := CustomIdAttr(cid.value);
      case OtherAttr =>
        return Fail(TypeError);
    }

    /**
     * `set_manager(manager)`: nothing for the same manager; otherwise the class leaves its
     * current manager, if any, and takes the new one.
     */
    method SetManager(m: Option<ManagerId>)
      modifies this
      ensures manager == m && customId == old(customId)
      ensures unsubscribedFrom == old(unsubscribedFrom) + if old(manager) != m && old(manager).Some? then [old(manager).value] else []
    {
      if manager == m {
        return;
      }
      if manager.Some? {
        unsubscribedFrom := unsubscribedFrom + [manager.value];
      }
      manager := m;
    }

    /** `should_invoke_for(interaction)`: whether the interaction's custom id starts with this class's name. */
    function ShouldInvokeFor(i: Interaction): (r: Result<bool>)
      requires customId.CustomIdAttr?
      reads this
      ensures r.Err? <==> i.OtherInteraction?
      ensures r.Err? ==> r.exc == TypeError
      ensures r.Ok? ==> r.value == CustomId.CheckName(customId.cid, ExtractCustomId(i).value)
    {
      var s :- ExtractCustomId(i);
      Ok(CustomId.CheckName(customId.cid, s))
    }
  }

  /**
   * A class is invoked for every id its custom id completes to, whatever the field values,
   * and also for the ids of any class whose name extends its own.
   */
  lemma InvokedForOwnIds(c: ComponentType, values: seq<string>, suffix: string)
    requires c.customId.CustomIdAttr?
    ensures c.ShouldInvokeFor(MessageInteraction(CustomId.Filled(values, c.customId.cid.name, c.customId.cid.sep))) == Ok(true)
    ensures c.ShouldInvokeFor(ModalInteraction(c.customId.cid.name + suffix)) == Ok(true)
  {
    var cid := c.customId.cid;
    if values != [] {
      assert CustomId.Filled(values, cid.name, cid.sep) == cid.name + (cid.sep + Text.Join(values, cid.sep));
      CustomId.CheckNameAcceptsExtensions(cid, cid.sep + Text.Join(values, cid.sep));
    } else {
      CustomId.CheckNameAcceptsExtensions(cid, []);
      assert cid.name + [] == cid.name;
    }
    CustomId.CheckNameAcceptsExtensions(cid, suffix);
  }
}
