/**
  The display type of a field: a link into the documentation of the schema
  language, decorated with the field's cardinality.
 */
module TypeNames {
  import opened Strings
  import opened Descriptors

  const TypesPage: string := "<a href=\"/docs/types.php\">"
  const DslTypesPage: string := "<a href=\"/docs/dsl-types.php#"
  const LinkEnd: string := "</a>"
  const Unknown: string := "<unknown>"

  /** A link to one of the built-in type categories. */
  function TypesLink(category: string): string {
    TypesPage + category + LinkEnd
  }

  /** A link to the documentation of a user-defined message or enum type. */
  function TypeUrl(name: string): (r: string)
    ensures StartsWith(r, DslTypesPage + name)
    ensures EndsWith(r, "\">" + name + LinkEnd)
    ensures |r| == |DslTypesPage| + 2 * |name| + 2 + |LinkEnd|
  {
    var r := DslTypesPage + name + "\">" + name + LinkEnd;
    assert r[..|DslTypesPage + name|] == DslTypesPage + name;
    assert r[|r| - |"\">" + name + LinkEnd|..] == "\">" + name + LinkEnd;
    r
  }

  /** Different type names give different links: the name can be read back. */
  lemma TypeUrlInjective(a: string, b: string)
    ensures TypeUrl(a) == TypeUrl(b) <==> a == b
  {
    if TypeUrl(a) == TypeUrl(b) {
      assert |TypeUrl(a)| == |DslTypesPage| + 2 * |a| + 2 + |LinkEnd|;
      assert TypeUrl(a)[|DslTypesPage|..|DslTypesPage| + |a|] == a;
      assert TypeUrl(b)[|DslTypesPage|..|DslTypesPage| + |b|] == b;
    }
  }

  const ArrayPrefix: string := TypesLink("array") + " of "

  predicate IsIntegerKind(t: FieldType) {
    t in {TypeFixed32, TypeFixed64, TypeInt32, TypeInt64, TypeSfixed32,
          TypeSfixed64, TypeSint32, TypeSint64, TypeUint32, TypeUint64}
  }

  /** Message, group and enum fields refer to a user-defined type. */
  predicate IsReferenceKind(t: FieldType) {
    t == TypeMessage || t == TypeGroup || t == TypeEnum
  }

  /** The category table for scalar kinds; the three reference kinds fall to
      the default branch. */
  function ScalarTypeName(t: FieldType): (r: string)
    ensures r == Unknown <==> IsReferenceKind(t)
    ensures r != Unknown ==> StartsWith(r, TypesPage) && EndsWith(r, LinkEnd)
  {
    CategoryLinksDistinct();
    match t
    case TypeBool => TypesLink("bool")
    case TypeBytes | TypeString => TypesLink("string")
    case TypeDouble | TypeFloat => TypesLink("float")
    case TypeFixed32 | TypeFixed64 | TypeInt32 | TypeInt64 | TypeSfixed32
       | TypeSfixed64 | TypeSint32 | TypeSint64 | TypeUint32 | TypeUint64 => TypesLink("int")
    case _ => Unknown
  }

  /** The type shown before the cardinality is applied: the referenced type
      for message, group and enum fields; for scalar fields the category,
      replaced by `time` when the field's name contains `date`. */
  function BaseType(f: FieldDescriptor): (r: string)
    ensures IsReferenceKind(f.fieldType) ==> r == TypeUrl(f.typeName)
    ensures StartsWith(r, DslTypesPage) <==> IsReferenceKind(f.fieldType)
    ensures r == TypesLink("time") <==> !IsReferenceKind(f.fieldType) && Contains(f.name, "date")
    ensures !IsReferenceKind(f.fieldType) && !Contains(f.name, "date") ==> r == ScalarTypeName(f.fieldType)
  {
    assert TypesPage[15] != DslTypesPage[15];
    LinksDiffer("time", "bool");
    LinksDiffer("time", "string");
    LinksDiffer("time", "float");
    LinksDiffer("time", "int");
    if IsReferenceKind(f.fieldType) then TypeUrl(f.typeName)
    else if IndexOf(f.name, "date") != -1 then TypesLink("time")
    else ScalarTypeName(f.fieldType)
  }

  /** The display type of a field: optional fields get a `?` suffix,
      repeated fields an `array of` prefix, required fields neither. */
  function DisplayType(f: FieldDescriptor): (r: string)
    ensures IsReferenceKind(f.fieldType) ==> Decorated(r, f.fieldLabel, TypeUrl(f.typeName))
    ensures !IsReferenceKind(f.fieldType) && Contains(f.name, "date") ==> Decorated(r, f.fieldLabel, TypesLink("time"))
    ensures !IsReferenceKind(f.fieldType) && !Contains(f.name, "date") ==>
      Decorated(r, f.fieldLabel, ScalarTypeName(f.fieldType))
  {
    var base := BaseType(f);
    match f.fieldLabel
    case Optional => base + "?"
    case Repeated => ArrayPrefix + base
    case Required => base
  }

  /** `r` is `base` with the decoration for `cardinality`. */
  predicate Decorated(r: string, cardinality: Label, base: string) {
    match cardinality
    case Optional => r == base + "?"
    case Repeated => r == ArrayPrefix + base
    case Required => r == base
  }

  /** The scalar table read in both directions: each category string is
      produced by exactly the kinds listed for it. */
  lemma ScalarCategories(t: FieldType)
    ensures ScalarTypeName(t) == TypesLink("bool") <==> t == TypeBool
    ensures ScalarTypeName(t) == TypesLink("string") <==> t == TypeBytes || t == TypeString
    ensures ScalarTypeName(t) == TypesLink("float") <==> t == TypeDouble || t == TypeFloat
    ensures ScalarTypeName(t) == TypesLink("int") <==> IsIntegerKind(t)
    ensures ScalarTypeName(t) == Unknown <==> IsReferenceKind(t)
  {
    BoolCategory(t);
    StringCategory(t);
    FloatCategory(t);
    IntCategory(t);
    UnknownCategory(t);
  }

  lemma BoolCategory(t: FieldType)
    ensures ScalarTypeName(t) == TypesLink("bool") <==> t == TypeBool
  {
    if !(t == TypeBool) {
      LinksDiffer("bool", "string");
      LinksDiffer("bool", "float");
      LinksDiffer("bool", "int");
      NotUnknown("bool");
    }
  }

  lemma StringCategory(t: FieldType)
    ensures ScalarTypeName(t) == TypesLink("string") <==> t == TypeBytes || t == TypeString
  {
    if !(t == TypeBytes || t == TypeString) {
      LinksDiffer("string", "bool");
      LinksDiffer("string", "float");
      LinksDiffer("string", "int");
      NotUnknown("string");
    }
  }

  lemma FloatCategory(t: FieldType)
    ensures ScalarTypeName(t) == TypesLink("float") <==> t == TypeDouble || t == TypeFloat
  {
    if !(t == TypeDouble || t == TypeFloat) {
      LinksDiffer("float", "bool");
      LinksDiffer("float", "string");
      LinksDiffer("float", "int");
      NotUnknown("float");
    }
  }

  lemma IntCategory(t: FieldType)
    ensures ScalarTypeName(t) == TypesLink("int") <==> IsIntegerKind(t)
  {
    if !IsIntegerKind(t) {
      LinksDiffer("int", "bool");
      LinksDiffer("int", "string");
      LinksDiffer("int", "float");
      NotUnknown("int");
    }
  }

  lemma UnknownCategory(t: FieldType)
    ensures ScalarTypeName(t) == Unknown <==> IsReferenceKind(t)
  {
    CategoryLinksDistinct();
  }

  /** The four category links and the unknown marker are all different. */
  lemma CategoryLinksDistinct()
    ensures TypesLink("bool") != TypesLink("string") && TypesLink("bool") != TypesLink("float")
    ensures TypesLink("bool") != TypesLink("int") && TypesLink("string") != TypesLink("float")
    ensures TypesLink("string") != TypesLink("int") && TypesLink("float") != TypesLink("int")
    ensures TypesLink("bool") != Unknown && TypesLink("string") != Unknown
    ensures TypesLink("float") != Unknown && TypesLink("int") != Unknown
  {
    LinksDiffer("bool", "string");
    LinksDiffer("bool", "float");
    LinksDiffer("bool", "int");
    LinksDiffer("string", "float");
    LinksDiffer("string", "int");
    LinksDiffer("float", "int");
    NotUnknown("bool");
    NotUnknown("string");
    NotUnknown("float");
    NotUnknown("int");
  }

  lemma NotUnknown(a: string)
    ensures TypesLink(a) != Unknown
  {
    assert TypesLink(a)[1] == 'a' != Unknown[1];
  }

  /** Category links with different names differ. */
  lemma LinksDiffer(a: string, b: string)
    requires a != b
    ensures TypesLink(a) != TypesLink(b)
  {
    if |a| == |b| {
      var k :| 0 <= k < |a| && a[k] != b[k];
      assert TypesLink(a)[|TypesPage| + k] == a[k];
      assert TypesLink(b)[|TypesPage| + k] == b[k];
    }
  }

  /** The cardinality can be read back from the display type: only optional
      fields end in `?` and only repeated fields start with the array link. */
  lemma LabelRecoverable(f: FieldDescriptor)
    ensures EndsWith(DisplayType(f), "?") <==> f.fieldLabel == Optional
    ensures StartsWith(DisplayType(f), ArrayPrefix) <==> f.fieldLabel == Repeated
  {
    var base := BaseType(f);
    BaseTypeShape(f);
    var r := DisplayType(f);
    if f.fieldLabel == Optional {
      assert r == base + "?";
      assert !StartsWith(r, ArrayPrefix) by {
        if |base| >= |ArrayPrefix| {
          assert r[..|ArrayPrefix|] == base[..|ArrayPrefix|];
        } else if |r| == |ArrayPrefix| {
          assert r[|r| - 1] == '?' != ArrayPrefix[|ArrayPrefix| - 1];
        }
      }
    } else if f.fieldLabel == Repeated {
      assert r == ArrayPrefix + base;
      assert r[|r| - 1] == base[|base| - 1];
    } else {
      assert r == base;
    }
  }

  /** Every base type ends in `>` and is too long, or differs too early, to
      start with the array link. */
  lemma BaseTypeShape(f: FieldDescriptor)
    ensures |BaseType(f)| > 0 && BaseType(f)[|BaseType(f)| - 1] == '>'
    ensures |BaseType(f)| >= |ArrayPrefix| ==> BaseType(f)[..|ArrayPrefix|] != ArrayPrefix
    ensures |BaseType(f)| < |ArrayPrefix| ==> !StartsWith(BaseType(f), ArrayPrefix)
  {
    var base := BaseType(f);
    var k := |TypesPage|;
    assert ArrayPrefix[k] == 'a';
    if IsReferenceKind(f.fieldType) {
      assert base[|"<a href=\"/docs/"|] == 'd';
      assert ArrayPrefix[|"<a href=\"/docs/"|] == 't';
    } else if IndexOf(f.name, "date") != -1 {
      assert base[k] == 't';
    } else {
      ScalarLinkShape(f.fieldType);
    }
  }

  /** A category link ends in `>` and, past the page prefix, starts with a
      letter other than the `a` of `array`. */
  lemma ScalarLinkShape(t: FieldType)
    requires !IsReferenceKind(t)
    ensures |ScalarTypeName(t)| > |TypesPage|
    ensures ScalarTypeName(t)[|TypesPage|] != 'a'
    ensures ScalarTypeName(t)[|ScalarTypeName(t)| - 1] == '>'
  {
    match t
    case TypeBool => LinkShape("bool");
    case TypeBytes | TypeString => LinkShape("string");
    case TypeDouble | TypeFloat => LinkShape("float");
    case TypeFixed32 | TypeFixed64 | TypeInt32 | TypeInt64 | TypeSfixed32
       | TypeSfixed64 | TypeSint32 | TypeSint64 | TypeUint32 | TypeUint64 =>
      LinkShape("int");
  }

  lemma LinkShape(c: string)
    requires |c| > 0
    ensures |TypesLink(c)| > |TypesPage|
    ensures TypesLink(c)[|TypesPage|] == c[0]
    ensures TypesLink(c)[|TypesLink(c)| - 1] == '>'
  {
  }

  /** A 32-bit integer field named `created_date` shows as `time`. */
  lemma DateOverride()
    ensures DisplayType(FieldDescriptor("created_date", TypeInt32, Required, "", Comments("", "")))
      == TypesLink("time")
  {
    assert OccursAt("created_date", "date", 8);
  }
}
