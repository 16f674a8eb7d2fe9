/**
 * The student form (components/dashboard/student-form.tsx): the field
 * validators of its schema, the values the form starts from when it edits a
 * student, and the texts of its submit button and confirmation toast.
 */
module StudentForm {
  import opened Wrappers
  import opened JsNumbers
  import opened JsParse
  import opened JsStrings

  /** `s.length`: UTF-16 code units, two for a character outside the Basic Multilingual Plane. */
  function Utf16Length(s: string): (n: nat)
    ensures |s| <= n <= 2 * |s|
    ensures (forall i :: 0 <= i < |s| ==> s[i] as int < 0x1_0000) ==> n == |s|
  {
    if s == [] then 0
    else (if s[0] as int >= 0x1_0000 then 2 else 1) + Utf16Length(s[1..])
  }

  // ---------------------------------------------------------------------
  // Validators
  // ---------------------------------------------------------------------

  /** `z.string().min(3)` on the name. */
  function NameValid(name: string): (ok: bool)
    ensures |name| >= 3 ==> ok
    ensures ok ==> |name| >= 2
    ensures (forall i :: 0 <= i < |name| ==> name[i] as int < 0x1_0000) ==> (ok <==> |name| >= 3)
  {
    Utf16Length(name) >= 3
  }

  /** The age check: `parseInt` gives a number strictly between 0 and 20. */
  function AgeValid(val: string): (ok: bool)
    ensures ok ==> exists i :: 0 <= i < |val| && IsDecimalDigit(val[i])
    ensures ok ==> ParseInt(val).Some? && 1 <= ParseInt(val).value <= 19
  {
    match ParseInt(val)
    case None => false
    case Some(n) => 0 < n < 20
  }

  /** The height and weight check: `parseFloat` gives a number that is not NaN and is above 0. */
  function PositiveNumberValid(val: string): (ok: bool)
    ensures ok ==> ParseFloat(val).PosInfinity? || (ParseFloat(val).Finite? && ParseFloat(val).value > 0.0)
  {
    var num := ParseFloat(val);
    !num.NaN? && IsPositive(num)
  }

  datatype FormValues = FormValues(
    name: string, age: string, gender: string, classGroup: string, height: string, weight: string)

  /** The fields that can fail validation, in the schema's order. */
  datatype Field = Name | Age | Height | Weight

  /** A field's place in the schema. */
  function SchemaIndex(f: Field): nat {
    match f
    case Name => 0
    case Age => 1
    case Height => 2
    case Weight => 3
  }

  /** The message the schema attaches to a failing field. */
  function Message(f: Field): string {
    match f
    case Name => "Name must be at least 3 characters."
    case Age => "Age must be a number between 1 and 19."
    case Height => "Height must be a positive number."
    case Weight => "Weight must be a positive number."
  }

  /**
   * The schema applied to the form: the failing fields, each once, in the
   * schema's order. Gender and class accept any string.
   */
  function Validate(v: FormValues): (errors: seq<Field>)
    ensures |errors| <= 4
    ensures errors == [] <==>
      NameValid(v.name) && AgeValid(v.age) && PositiveNumberValid(v.height) && PositiveNumberValid(v.weight)
    ensures Name in errors <==> !NameValid(v.name)
    ensures Age in errors <==> !AgeValid(v.age)
    ensures Height in errors <==> !PositiveNumberValid(v.height)
    ensures Weight in errors <==> !PositiveNumberValid(v.weight)
    ensures forall i, j :: 0 <= i < j < |errors| ==> SchemaIndex(errors[i]) < SchemaIndex(errors[j])
  {
    Report(NameValid(v.name), AgeValid(v.age), PositiveNumberValid(v.height), PositiveNumberValid(v.weight))
  }

  /** The failing fields, in the schema's order, given which checks pass. */
  function Report(name: bool, age: bool, height: bool, weight: bool): (errors: seq<Field>)
    ensures |errors| <= 4
    ensures errors == [] <==> name && age && height && weight
    ensures Name in errors <==> !name
    ensures Age in errors <==> !age
    ensures Height in errors <==> !height
    ensures Weight in errors <==> !weight
    ensures forall i, j :: 0 <= i < j < |errors| ==> SchemaIndex(errors[i]) < SchemaIndex(errors[j])
  {
    (if name then [] else [Name]) + ((if age then [] else [Age])
    + ((if height then [] else [Height]) + (if weight then [] else [Weight])))
  }

  /** Each field has its own message, so the messages shown name the failing fields. */
  lemma MessageIdentifiesField(a: Field, b: Field)
    ensures Message(a) == Message(b) <==> a == b
  {
    if a != b {
      assert Message(a)[0] != Message(b)[0];
    }
  }

  /** A string without a decimal digit is no age. */
  lemma NoDigitNoAge(val: string)
    requires forall i :: 0 <= i < |val| ==> !IsDecimalDigit(val[i])
    ensures !AgeValid(val)
  {
  }

  /** A string without a decimal digit passes the height and weight check only as `Infinity`. */
  lemma NoDigitOnlyInfinity(val: string)
    requires forall i :: 0 <= i < |val| ==> !IsDecimalDigit(val[i])
    ensures PositiveNumberValid(val) <==> ParseFloat(val) == PosInfinity
  {
  }

  /** The empty string, what an untouched field holds, fails every numeric check. */
  lemma EmptyRejected()
    ensures !AgeValid("") && !PositiveNumberValid("")
    ensures Validate(FormValues("", "", "", "", "", "")) == [Name, Age, Height, Weight]
  {
    ParseEmpty();
    assert Utf16Length("") == 0;
    assert Validate(FormValues("", "", "", "", "", "")) == Report(false, false, false, false);
    AllFailing();
  }

  lemma AllFailing()
    ensures Report(false, false, false, false) == [Name, Age, Height, Weight]
  {
  }

  /** `parseInt` stops at the point, so "7.9" is read as 7 and accepted as an age. */
  lemma AgeReadsIntegerPrefix()
    ensures ParseInt("7.9") == Some(7) && AgeValid("7.9")
  {
    ParseSevenPointNine();
  }

  lemma ParseSevenPointNine()
    ensures ParseInt("7.9") == Some(7)
  {
    var ds, rest := "7", ".9";
    assert ds + rest == "7.9";
    SevenDigitValue();
    ParseIntDecimalPrefix(ds, rest);
  }

  lemma SevenDigitValue()
    ensures DigitsValue("7", 10) == 7
  {
    assert "7"[..0] == [];
  }

  /** After `0x`, `parseInt` reads hexadecimal, so "0x13" is read as 19 and accepted as an age. */
  lemma HexAgeAccepted()
    ensures ParseInt("0x13") == Some(19) && AgeValid("0x13")
  {
    ParseHexThirteen();
  }

  lemma ParseHexThirteen()
    ensures ParseInt("0x13") == Some(19)
  {
    var hs, rest := "13", "";
    assert ['0', 'x'] + (hs + rest) == "0x13";
    HexThirteenValue();
    ParseIntHexPrefix('x', hs, rest);
  }

  lemma HexThirteenValue()
    ensures DigitsValue("13", 16) == 19
  {
    assert "13"[..1] == "1" && "1"[..0] == [];
  }

  /** `parseFloat` ignores a trailing unit, so "142.5cm" is read as 142.5 and accepted as a height. */
  lemma HeightWithUnitAccepted()
    ensures ParseFloat("142.5cm") == Finite(142.5) && PositiveNumberValid("142.5cm")
  {
    ParseHeightWithUnit();
  }

  lemma ParseHeightWithUnit()
    ensures ParseFloat("142.5cm") == Finite(142.5)
  {
    var ds, fs, rest := "142", "5", "cm";
    assert ds + ("." + (fs + rest)) == "142.5cm";
    assert ds + fs == "1425";
    HeightDigitsValue();
    ParseFloatFractionPrefix(ds, fs, rest);
  }

  lemma HeightDigitsValue()
    ensures Value(Decimal(DigitsValue("1425", 10), 1)) == 142.5
  {
    assert "1425"[..3] == "142" && "142"[..2] == "14" && "14"[..1] == "1" && "1"[..0] == [];
    assert Value(Decimal(1425, 1)) == ScaleDown(1425.0, 0) / 10.0;
  }

  /** `parseFloat` reads an exponent, so "1e2x" is read as 100 and accepted as a weight. */
  lemma ExponentWeightAccepted()
    ensures ParseFloat("1e2x") == Finite(100.0) && PositiveNumberValid("1e2x")
  {
    ParseOneEtwo();
  }

  lemma ParseOneEtwo()
    ensures ParseFloat("1e2x") == Finite(100.0)
  {
    var ds, es, rest := "1", "2", "x";
    assert ds + ("e" + (es + rest)) == "1e2x";
    assert "1"[..0] == [] && "2"[..0] == [];
    assert Scaled(DigitsValue(ds, 10), DigitsValue(es, 10)) == Scaled(100, 0) == 100.0;
    ParseFloatExponentPrefix(ds, es, rest);
  }

  /** `parseFloat("Infinity")` is not NaN and is above 0, so it passes as a height or weight. */
  lemma InfinityIsPositive()
    ensures PositiveNumberValid("Infinity")
  {
    ParseInfinity();
  }

  lemma ParseInfinity()
    ensures ParseFloat("Infinity") == PosInfinity
  {
    var s := "Infinity";
    assert s[0] == 'I' && !IsWhiteSpace(s[0]);
    ParseFloatNoWhiteSpace(s);
    assert DropSign(s) == s && !IsNegative(s);
    assert HasPrefix(s, "Infinity");
  }

  // ---------------------------------------------------------------------
  // Default values
  // ---------------------------------------------------------------------

  /**
   * The student an edit form is opened for. Absent fields are `None`;
   * numbers are the decimals their JavaScript values print as.
   */
  datatype StudentData = StudentData(
    name: Option<string>, age: Option<Decimal>, gender: Option<string>,
    classGroup: Option<string>, height: Option<Decimal>, weight: Option<Decimal>)

  /** `field || ""` for a text field. */
  function TextOrEmpty(field: Option<string>): (r: string)
    ensures field.Some? ==> r == field.value
    ensures field.None? ==> r == ""
  {
    if field.Some? then field.value else ""
  }

  /** `field ? String(field) : ""` for a number field: absent and zero both give "". */
  function NumberOrEmpty(field: Option<Decimal>): (r: string)
    ensures r == "" <==> field.None? || field.value.mantissa == 0
    ensures r != "" ==> r == DecimalString(field.value)
  {
    if field.Some? && field.value.mantissa != 0 then DecimalString(field.value) else ""
  }

  /**
   * `defaultValues`: every field empty for a new student. For a student, the
   * text fields (name, gender, class) go through `TextOrEmpty` and the
   * numbers (age, height, weight) through `NumberOrEmpty`, field by field.
   */
  function FormDefaults(studentData: Option<StudentData>): (v: FormValues)
    ensures studentData.None? ==> v == FormValues("", "", "", "", "", "")
  {
    match studentData
    case None => FormValues("", "", "", "", "", "")
    case Some(s) =>
      FormValues(TextOrEmpty(s.name), NumberOrEmpty(s.age), TextOrEmpty(s.gender),
                 TextOrEmpty(s.classGroup), NumberOrEmpty(s.height), NumberOrEmpty(s.weight))
  }

  /** The empty string is NaN to both parsers. */
  lemma ParseEmpty()
    ensures ParseInt("") == None && ParseFloat("") == NaN
  {
    assert !HasPrefix("", "Infinity");
  }

  /**
   * A student's age, printed without an exponent, passes the age check
   * exactly when it lies in [1, 20).
   */
  lemma DefaultAgeValid(age: Option<Decimal>)
    requires age.Some? ==> Positional(age.value)
    ensures AgeValid(NumberOrEmpty(age)) <==> age.Some? && 1.0 <= Value(age.value) < 20.0
  {
    ParseEmpty();
    if age.Some? {
      var d := age.value;
      SignOfValue(d);
      if d.mantissa != 0 {
        assert NumberOrEmpty(age) == DecimalString(d);
        DecimalAgeValid(d);
      }
    }
  }

  /** A number printed without an exponent passes the age check exactly when it lies in [1, 20). */
  lemma DecimalAgeValid(d: Decimal)
    requires Positional(d)
    ensures AgeValid(DecimalString(d)) <==> 1.0 <= Value(d) < 20.0
  {
    var n := Normalize(d);
    ParseIntOfDecimalString(d);
    TruncatedPartBetween(n, 20);
    NormalizeValue(d);
  }

  /**
   * A student's height or weight passes its check exactly when it is
   * positive and large enough not to underflow to zero as a `Number`.
   */
  lemma DefaultNumberValid(field: Option<Decimal>)
    ensures PositiveNumberValid(NumberOrEmpty(field)) <==> field.Some? && Value(field.value) > HalfMinSubnormal
  {
    ParseEmpty();
    if field.Some? {
      var d := field.value;
      SignOfValue(d);
      if d.mantissa != 0 {
        ParseFloatOfDecimalString(d);
        assert ParseFloat(NumberOrEmpty(field)) == NumberValue(Value(d));
      }
    }
  }

  /**
   * The form opened on a student whose age prints without an exponent passes
   * the schema exactly when the student's own values do.
   */
  lemma EditDefaultsValid(s: StudentData)
    requires s.age.Some? ==> Positional(s.age.value)
    ensures Validate(FormDefaults(Some(s))) == [] <==>
      && NameValid(TextOrEmpty(s.name))
      && s.age.Some? && 1.0 <= Value(s.age.value) < 20.0
      && s.height.Some? && Value(s.height.value) > HalfMinSubnormal
      && s.weight.Some? && Value(s.weight.value) > HalfMinSubnormal
  {
    var v := FormDefaults(Some(s));
    assert v.name == TextOrEmpty(s.name);
    assert v.age == NumberOrEmpty(s.age);
    assert v.height == NumberOrEmpty(s.height) && v.weight == NumberOrEmpty(s.weight);
    var name, age := NameValid(v.name), AgeValid(v.age);
    var height, weight := PositiveNumberValid(v.height), PositiveNumberValid(v.weight);
    assert Validate(v) == [] <==> name && age && height && weight;
    DefaultAgeValid(s.age);
    DefaultNumberValid(s.height);
    DefaultNumberValid(s.weight);
  }

  // ---------------------------------------------------------------------
  // Texts
  // ---------------------------------------------------------------------

  /** The submit button's text. */
  function SubmitLabel(isLoading: bool, editing: bool): (text: string)
    ensures isLoading ==> text == "Saving..."
    ensures !isLoading && editing ==> text == "Update Student"
    ensures !isLoading && !editing ==> text == "Add Student"
  {
    if isLoading then "Saving..." else if editing then "Update Student" else "Add Student"
  }

  /** The toast's title once the simulated save completes. */
  function ToastTitle(editing: bool): (title: string)
    ensures editing ==> title == "Student Updated"
    ensures !editing ==> title == "Student Created"
  {
    if editing then "Student Updated" else "Student Created"
  }

  /** The toast's description, naming the saved student. */
  function ToastDescription(name: string, editing: bool): (text: string)
    ensures |text| > |name| && text[..|name|] == name
  {
    name + " has been successfully " + (if editing then "updated" else "added") + "."
  }

  /** The button and the toast make the same edit-or-create choice. */
  lemma LabelsAgree(editing: bool)
    ensures SubmitLabel(false, editing) == "Update Student" <==> ToastTitle(editing) == "Student Updated"
    ensures SubmitLabel(false, editing) == "Add Student" <==> ToastTitle(editing) == "Student Created"
  {
  }
}
