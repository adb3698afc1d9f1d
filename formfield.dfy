/**
 * The form field of one column in the record editor: which input it shows, which
 * validation rules it carries, and whether it is shown at all.
 */
module FormField {
  import opened Wrappers
  import opened Text
  import opened Dtos
  import Utils
  import Helper

  /** The input kinds of the editor. */
  datatype InputType =
    | NumberInput | DecimalInput | CheckboxInput | DateTimeInput | TimeInput | LongTextInput | BinaryInput | TextInput

  /** The name the editor uses for each input kind. */
  function InputTypeName(t: InputType): (r: string)
    ensures t == TextInput <==> r == "text"
    ensures t == CheckboxInput <==> r == "checkbox"
  {
    match t
    case NumberInput => "number"
    case DecimalInput => "decimal-number"
    case CheckboxInput => "checkbox"
    case DateTimeInput => "datetime"
    case TimeInput => "time"
    case LongTextInput => "longText"
    case BinaryInput => "binary"
    case TextInput => "text"
  }

  /** Distinct kinds have distinct names. */
  lemma InputTypeNamesDistinct(a: InputType, b: InputType)
    ensures InputTypeName(a) == InputTypeName(b) <==> a == b
  {
    if a != b {
      assert InputTypeName(a) != InputTypeName(b) by {
        var na, nb := InputTypeName(a), InputTypeName(b);
        assert na[0] != nb[0] || |na| != |nb| || na[1] != nb[1];
      }
    }
  }

  /** `getInputType`: the input for each column type, text for everything else. */
  function GetInputType(dataType: DataType): (r: InputType)
    ensures r == NumberInput <==> dataType == Integer
    ensures r == DecimalInput <==> dataType in {Float, Decimal}
    ensures r == CheckboxInput <==> dataType == Boolean
    ensures r == DateTimeInput <==> dataType in {DataType.DateTime, DateTimeOffset}
    ensures r == TimeInput <==> dataType == TimeOnly
    ensures r == LongTextInput <==> dataType in {Xml, Json}
    ensures r == BinaryInput <==> dataType == DataType.Binary
    ensures r == TextInput <==> dataType in {Undefined, String, Char, Guid}
  {
    match dataType
    case Integer => NumberInput
    case Float => DecimalInput
    case Decimal => DecimalInput
    case Boolean => CheckboxInput
    case DateTime => DateTimeInput
    case DateTimeOffset => DateTimeInput
    case TimeOnly => TimeInput
    case Xml => LongTextInput
    case Json => LongTextInput
    case Binary => BinaryInput
    case String => TextInput
    case Char => TextInput
    case Guid => TextInput
    case Undefined => TextInput
  }

  /**
   * A numeric input is shown exactly for the column types whose values the server
   * converts with the runtime's number parsing, the only ones whose literal can fail.
   */
  lemma NumericInputsAreConvertedTypes(conv: Utils.Conversions, dataType: DataType, value: string)
    ensures GetInputType(dataType) in {NumberInput, DecimalInput} <==> dataType in {Integer, Decimal, Float}
    ensures Utils.ParamValueToString(conv, dataType, Some(value)).Failure? ==>
      GetInputType(dataType) in {NumberInput, DecimalInput}
  {
  }

  /**
   * The checkbox of a Boolean column writes what `boolToString` makes of its state, and
   * the server turns that into the bit literal of the same truth value, or `NULL` for
   * the cleared state.
   */
  lemma CheckboxReachesServerAsBit(conv: Utils.Conversions, column: ColumnInfo, state: Helper.JsValue)
    requires GetInputType(column.dataType) == CheckboxInput
    ensures var written := Helper.BoolToString(state);
      var literal := Utils.ParamValueToString(conv, column.dataType, written);
      literal.Success?
      && (Helper.ToBoolean(state).None? ==> literal.value == "NULL")
      && (Helper.ToBoolean(state) == Some(true) ==> literal.value == "1")
      && (Helper.ToBoolean(state) == Some(false) ==> literal.value == "0")
  {
    var written := Helper.BoolToString(state);
    if written.Some? {
      assert Lower("0") == "0" && Lower("1") == "1";
    }
  }

  // ---------------------------------------------------------------------------
  // Validation rules
  // ---------------------------------------------------------------------------

  /** The email check: a regular expression (matched ignoring case) and its message. */
  datatype PatternRule = PatternRule(value: string, ignoreCase: bool, message: string)

  /** The rules the form library checks before submitting; absent rules are not checked. */
  datatype Rules = Rules(required: Option<string>, pattern: Option<PatternRule>)

  const NoRules := Rules(None, None)

  const EmailPattern := PatternRule("^[A-Z0-9._%+-]+@[A-Z0-9.-]+\\.[A-Z]{2,}$", true, "Invalid email address")

  /**
   * `getValidationRules`: none for an identity column; otherwise a required message
   * when the column is not nullable, and the email pattern when its name mentions
   * "email" in any case.
   */
  function GetValidationRules(column: ColumnInfo): (r: Rules)
    ensures column.isIdentity ==> r == NoRules
    ensures !column.isIdentity ==>
      && (r.required.Some? <==> !column.isNullable)
      && (r.required.Some? ==> r.required.value == column.columnName + " is required")
      && (r.pattern.Some? <==> Contains(Lower(column.columnName), "email"))
      && (r.pattern.Some? ==> r.pattern.value == EmailPattern)
  {
    if column.isIdentity then NoRules
    else
      var required := if !column.isNullable then Some(column.columnName + " is required") else None;
      var pattern := if Contains(Lower(column.columnName), "email") then Some(EmailPattern) else None;
      Rules(required, pattern)
  }

  /** The email rule does not depend on how the name is cased. */
  lemma EmailRuleIgnoresCase(column: ColumnInfo, name: string)
    requires Lower(name) == Lower(column.columnName)
    ensures GetValidationRules(column.(columnName := name)).pattern == GetValidationRules(column).pattern
  {
  }

  /** Any column whose name spells "email" somewhere, in any casing, gets the email rule. */
  lemma EmailNamesGetPattern(column: ColumnInfo, before: string, spelled: string, after: string)
    requires !column.isIdentity && column.columnName == before + spelled + after && Lower(spelled) == "email"
    ensures GetValidationRules(column).pattern == Some(EmailPattern)
  {
    assert Lower(column.columnName) == Lower(before) + "email" + Lower(after);
    ContainsInfix(Lower(before), "email", Lower(after));
  }

  // ---------------------------------------------------------------------------
  // The field as rendered
  // ---------------------------------------------------------------------------

  /** What the field is set up with, before any markup. */
  datatype FieldSetup = FieldSetup(
    fieldName: string,
    inputType: InputType,
    rules: Rules,
    isRequired: bool,
    inlineLabel: bool)

  /**
   * `RenderFormField` up to its markup: nothing for an identity column of a record not
   * yet created; otherwise the field named after the column, its input, its rules, the
   * required marker of a non-nullable column, and the label beside a checkbox.
   */
  function RenderFormField(column: ColumnInfo, hasRecord: bool): (r: Option<FieldSetup>)
    ensures r.None? <==> column.isIdentity && !hasRecord
    ensures r.Some? ==>
      && r.value.fieldName == column.columnName
      && r.value.inputType == GetInputType(column.dataType)
      && r.value.rules == GetValidationRules(column)
      && (r.value.isRequired <==> !column.isNullable)
      && (r.value.inlineLabel <==> column.dataType == Boolean)
  {
    var inputType := GetInputType(column.dataType);
    var setup := FieldSetup(column.columnName, inputType, GetValidationRules(column),
                            !column.isNullable, InputTypeName(inputType) == "checkbox");
    if column.isIdentity && !hasRecord then None else Some(setup)
  }

  /**
   * A shown field carries the required rule exactly when it shows the required
   * marker, except for identity columns, which show the marker but are never checked.
   */
  lemma RequiredRuleMatchesMarker(column: ColumnInfo, hasRecord: bool)
    requires RenderFormField(column, hasRecord).Some?
    ensures var f := RenderFormField(column, hasRecord).value;
      (f.rules.required.Some? <==> f.isRequired && !column.isIdentity)
      && (column.isIdentity ==> hasRecord && f.rules == NoRules)
  {
  }
}
