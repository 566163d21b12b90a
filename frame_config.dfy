/**
 * The frame-header schema (`frame_config_types.h`) and its loader
 * (`frame_config_loader.cc`): a YAML document lists the header's fields, each
 * with a name, a byte size, a data type and either a literal value or the
 * name of a rule that computes it.
 */
module FrameConfig {
  import opened Results

  // ----- the schema types -----

  /** `FrameFieldDataType`: (un)signed 8/16/32/64-bit integers, little or big endian, and fixed strings. */
  datatype DataType =
    | Uint8 | Int8
    | Uint16Le | Uint16Be | Int16Le | Int16Be
    | Uint32Le | Uint32Be | Int32Le | Int32Be
    | Uint64Le | Uint64Be | Int64Le | Int64Be
    | FixedString

  /** `FrameFieldValueRule`: a configured value, or one of the two computed lengths. */
  datatype ValueRule = Literal | CalcTotalPacketLength | CalcProtobufHeadLength

  /** The `std::variant<int64_t, std::string>` a literal is held in; it starts as the integer 0. */
  datatype LiteralValue = IntLiteral(i: int) | StrLiteral(s: string)

  /** `FrameFieldDef`: one header field. */
  datatype FieldDef = FieldDef(
    name: string,
    sizeBytes: int,
    dataType: DataType,
    valueRule: ValueRule,
    literalValue: LiteralValue)

  /** `FrameHeaderConfig`: the header's fields, in wire order. */
  datatype HeaderConfig = HeaderConfig(fields: seq<FieldDef>)

  /** The spelling of each data type in the configuration file. */
  function DataTypeName(t: DataType): string {
    match t
    case Uint8 => "uint8"
    case Int8 => "int8"
    case Uint16Le => "uint16_le"
    case Uint16Be => "uint16_be"
    case Int16Le => "int16_le"
    case Int16Be => "int16_be"
    case Uint32Le => "uint32_le"
    case Uint32Be => "uint32_be"
    case Int32Le => "int32_le"
    case Int32Be => "int32_be"
    case Uint64Le => "uint64_le"
    case Uint64Be => "uint64_be"
    case Int64Le => "int64_le"
    case Int64Be => "int64_be"
    case FixedString => "fixed_string"
  }

  const TotalLengthKeyword: string := "CALC_TOTAL_PACKET_LENGTH"
  const HeadLengthKeyword: string := "CALC_PROTOBUF_HEAD_LENGTH"

  const Int32Min: int := -0x8000_0000
  const Int32Max: int := 0x7fff_ffff
  const Int64Min: int := -0x8000_0000_0000_0000
  const Int64Max: int := 0x7fff_ffff_ffff_ffff

  // ----- data types and sizes -----

  /** `string_to_data_type`: the data type spelled `s`, or None where the source throws "Unknown data type". */
  function StringToDataType(s: string): (r: Option<DataType>)
    ensures r.Some? ==> DataTypeName(r.value) == s
  {
    if s == "uint8" then Some(Uint8)
    else if s == "int8" then Some(Int8)
    else if s == "uint16_le" then Some(Uint16Le)
    else if s == "uint16_be" then Some(Uint16Be)
    else if s == "int16_le" then Some(Int16Le)
    else if s == "int16_be" then Some(Int16Be)
    else if s == "uint32_le" then Some(Uint32Le)
    else if s == "uint32_be" then Some(Uint32Be)
    else if s == "int32_le" then Some(Int32Le)
    else if s == "int32_be" then Some(Int32Be)
    else if s == "uint64_le" then Some(Uint64Le)
    else if s == "uint64_be" then Some(Uint64Be)
    else if s == "int64_le" then Some(Int64Le)
    else if s == "int64_be" then Some(Int64Be)
    else if s == "fixed_string" then Some(FixedString)
    else None
  }

  /** Every data type's spelling is recognised, and nothing else is: the mapping is a bijection onto the 15 names. */
  lemma StringToDataTypeInvertsName(t: DataType, s: string)
    ensures StringToDataType(DataTypeName(t)) == Some(t)
    ensures StringToDataType(s).None? <==> forall u: DataType :: DataTypeName(u) != s
  {
    if StringToDataType(s).None? {
      forall u: DataType ensures DataTypeName(u) != s {
        match u
        case Uint8 => case Int8 =>
        case Uint16Le => case Uint16Be => case Int16Le => case Int16Be =>
        case Uint32Le => case Uint32Be => case Int32Le => case Int32Be =>
        case Uint64Le => case Uint64Be => case Int64Le => case Int64Be =>
        case FixedString =>
      }
    }
  }

  /** `check_size_consistency`: whether `sizeBytes` suits the data type. */
  function CheckSizeConsistency(t: DataType, sizeBytes: int): bool {
    match t
    case Uint8 | Int8 => sizeBytes == 1
    case Uint16Le | Uint16Be | Int16Le | Int16Be => sizeBytes == 2
    case Uint32Le | Uint32Be | Int32Le | Int32Be => sizeBytes == 4
    case Uint64Le | Uint64Be | Int64Le | Int64Be => sizeBytes == 8
    case FixedString => sizeBytes > 0
  }

  /** The number written by the decimal digits of `s`, read left to right ("uint16_le" gives 16). */
  function DigitsValue(s: string): nat {
    if |s| == 0 then 0
    else if '0' <= s[|s| - 1] <= '9' then DigitsValue(s[..|s| - 1]) * 10 + (s[|s| - 1] as int - '0' as int)
    else DigitsValue(s[..|s| - 1])
  }

  /**
   * A numeric field's size is accepted exactly when it is the bit width in
   * the type's name divided by eight; a fixed string accepts every positive size.
   */
  lemma SizeMatchesTypeName(t: DataType, sizeBytes: int)
    ensures t != FixedString ==> (CheckSizeConsistency(t, sizeBytes) <==> 8 * sizeBytes == DigitsValue(DataTypeName(t)))
    ensures t == FixedString ==> (CheckSizeConsistency(t, sizeBytes) <==> sizeBytes > 0)
  {
    match t
    case Uint8 => assert DataTypeName(t) == "uint" + ['8']; OneDigitName("uint", '8');
    case Int8 => assert DataTypeName(t) == "int" + ['8']; OneDigitName("int", '8');
    case Uint16Le | Uint16Be | Int16Le | Int16Be => NameBits16(t);
    case Uint32Le | Uint32Be | Int32Le | Int32Be => NameBits32(t);
    case Uint64Le | Uint64Be | Int64Le | Int64Be => NameBits64(t);
    case FixedString =>
  }

  lemma NameBits16(t: DataType)
    requires t.Uint16Le? || t.Uint16Be? || t.Int16Le? || t.Int16Be?
    ensures DigitsValue(DataTypeName(t)) == 16
  {
    match t
    case Uint16Le =>
      assert DataTypeName(t) == "uint" + ['1', '6'] + "_le";
      TwoDigitName("uint", '1', '6', "_le");
    case Uint16Be =>
      assert DataTypeName(t) == "uint" + ['1', '6'] + "_be";
      TwoDigitName("uint", '1', '6', "_be");
    case Int16Le =>
      assert DataTypeName(t) == "int" + ['1', '6'] + "_le";
      TwoDigitName("int", '1', '6', "_le");
    case Int16Be =>
      assert DataTypeName(t) == "int" + ['1', '6'] + "_be";
      TwoDigitName("int", '1', '6', "_be");
  }

  lemma NameBits32(t: DataType)
    requires t.Uint32Le? || t.Uint32Be? || t.Int32Le? || t.Int32Be?
    ensures DigitsValue(DataTypeName(t)) == 32
  {
    match t
    case Uint32Le =>
      assert DataTypeName(t) == "uint" + ['3', '2'] + "_le";
      TwoDigitName("uint", '3', '2', "_le");
    case Uint32Be =>
      assert DataTypeName(t) == "uint" + ['3', '2'] + "_be";
      TwoDigitName("uint", '3', '2', "_be");
    case Int32Le =>
      assert DataTypeName(t) == "int" + ['3', '2'] + "_le";
      TwoDigitName("int", '3', '2', "_le");
    case Int32Be =>
      assert DataTypeName(t) == "int" + ['3', '2'] + "_be";
      TwoDigitName("int", '3', '2', "_be");
  }

  lemma NameBits64(t: DataType)
    requires t.Uint64Le? || t.Uint64Be? || t.Int64Le? || t.Int64Be?
    ensures DigitsValue(DataTypeName(t)) == 64
  {
    match t
    case Uint64Le =>
      assert DataTypeName(t) == "uint" + ['6', '4'] + "_le";
      TwoDigitName("uint", '6', '4', "_le");
    case Uint64Be =>
      assert DataTypeName(t) == "uint" + ['6', '4'] + "_be";
      TwoDigitName("uint", '6', '4', "_be");
    case Int64Le =>
      assert DataTypeName(t) == "int" + ['6', '4'] + "_le";
      TwoDigitName("int", '6', '4', "_le");
    case Int64Be =>
      assert DataTypeName(t) == "int" + ['6', '4'] + "_be";
      TwoDigitName("int", '6', '4', "_be");
  }

  /** Appending one character extends the digit value by that digit, if it is one. */
  lemma AppendChar(p: string, c: char)
    ensures DigitsValue(p + [c]) == if '0' <= c <= '9' then DigitsValue(p) * 10 + (c as int - '0' as int) else DigitsValue(p)
  {
    assert (p + [c])[..|p|] == p;
  }

  lemma {:induction false} NoDigitsValue(p: string)
    requires forall k :: 0 <= k < |p| ==> !('0' <= p[k] <= '9')
    ensures DigitsValue(p) == 0
  {
    if |p| > 0 {
      NoDigitsValue(p[..|p| - 1]);
    }
  }

  lemma {:induction false} NoDigitsSuffix(p: string, q: string)
    requires forall k :: 0 <= k < |q| ==> !('0' <= q[k] <= '9')
    ensures DigitsValue(p + q) == DigitsValue(p)
    decreases |q|
  {
    if |q| == 0 {
      assert p + q == p;
    } else {
      var q' := q[..|q| - 1];
      assert p + q == (p + q') + [q[|q| - 1]];
      AppendChar(p + q', q[|q| - 1]);
      NoDigitsSuffix(p, q');
    }
  }

  /** A digit-free name ending in one digit has that digit's value ("uint8" gives 8). */
  lemma OneDigitName(p: string, d: char)
    requires forall k :: 0 <= k < |p| ==> !('0' <= p[k] <= '9')
    requires '0' <= d <= '9'
    ensures DigitsValue(p + [d]) == d as int - '0' as int
  {
    AppendChar(p, d);
    NoDigitsValue(p);
  }

  /** A digit-free prefix, two digits and a digit-free suffix have the value of the two digits ("uint16_le" gives 16). */
  lemma TwoDigitName(p: string, d1: char, d2: char, suffix: string)
    requires forall k :: 0 <= k < |p| ==> !('0' <= p[k] <= '9')
    requires forall k :: 0 <= k < |suffix| ==> !('0' <= suffix[k] <= '9')
    requires '0' <= d1 <= '9' && '0' <= d2 <= '9'
    ensures DigitsValue(p + [d1, d2] + suffix) == (d1 as int - '0' as int) * 10 + (d2 as int - '0' as int)
  {
    NoDigitsSuffix(p + [d1, d2], suffix);
    assert p + [d1, d2] == (p + [d1]) + [d2];
    AppendChar(p + [d1], d2);
    OneDigitName(p, d1);
  }

  // ----- the YAML document -----

  /** A YAML node as yaml-cpp presents it, with string keys. */
  datatype Node = Null | Scalar(text: string) | Sequence(items: seq<Node>) | Mapping(entries: map<string, Node>)

  /** The result of reading the file: missing, not valid YAML, or its root node. */
  datatype Document = NotFound | Malformed | Parsed(root: Node)

  /** `node[key]`, None where yaml-cpp gives an undefined node. */
  function Lookup(n: Node, key: string): (r: Option<Node>)
    ensures r.Some? <==> n.Mapping? && key in n.entries
  {
    if n.Mapping? && key in n.entries then Some(n.entries[key]) else None
  }

  /** `node.as<std::string>()`: a scalar's text, "null" for a null node; anything else fails. */
  function AsString(n: Node): (r: Option<string>)
    ensures r.Some? <==> n.Scalar? || n.Null?
  {
    match n
    case Null => Some("null")
    case Scalar(t) => Some(t)
    case _ => None
  }

  /**
   * `node.as<T>()` for a signed integer type with range [lo, hi]: the scalar
   * text read as an integer by `readInt` (yaml-cpp's integer syntax), failing
   * when it is not one or does not fit.
   */
  function AsInteger(n: Node, readInt: string -> Option<int>, lo: int, hi: int): (r: Option<int>)
    ensures r.Some? <==> n.Scalar? && readInt(n.text).Some? && lo <= readInt(n.text).value <= hi
    ensures r.Some? ==> r.value == readInt(n.text).value
  {
    if n.Scalar? && readInt(n.text).Some? && lo <= readInt(n.text).value <= hi then Some(readInt(n.text).value)
    else None
  }

  /** Why loading failed (the message of the exception the source throws, as data). */
  datatype LoadError =
    | FileNotFound
    | YamlSyntax
    | MissingFrameHeader
    | FieldsNotSequence
    | IncompleteField
    | BadConversion(key: string)
    | UnknownDataType(typeName: string)
    | MissingValue(fieldName: string)
    | InvalidLiteral(value: string, fieldName: string)
    | InvalidFieldDef(fieldName: string)

  // ----- one field -----

  /**
   * `parse_value_rule(value_node, field_def)`: the rule the value names and
   * `field_def` as the call leaves it. A keyword leaves `field_def` alone;
   * anything else makes it a literal, an int64 for numeric types and the raw
   * text for a fixed string.
   */
  function ParseValueRule(valueNode: Option<Node>, def: FieldDef, readInt: string -> Option<int>)
    : (r: Result<(ValueRule, FieldDef), LoadError>)
    ensures valueNode.None? ==> r == Failure(MissingValue(def.name))
    ensures valueNode.Some? && AsString(valueNode.value).None? ==> r.Failure?
    ensures r.Success? ==> valueNode.Some? && AsString(valueNode.value).Some?
    ensures r.Success? ==> var text := AsString(valueNode.value).value;
      && (r.value.0 == CalcTotalPacketLength <==> text == TotalLengthKeyword)
      && (r.value.0 == CalcProtobufHeadLength <==> text == HeadLengthKeyword)
      && (r.value.0 != Literal ==> r.value.1 == def)
      && (r.value.0 == Literal ==>
            && r.value.1 == def.(valueRule := Literal, literalValue := r.value.1.literalValue)
            && (def.dataType == FixedString ==> r.value.1.literalValue == StrLiteral(text))
            && (def.dataType != FixedString ==>
                  && AsInteger(valueNode.value, readInt, Int64Min, Int64Max).Some?
                  && r.value.1.literalValue == IntLiteral(AsInteger(valueNode.value, readInt, Int64Min, Int64Max).value)))
    ensures r.Failure? && valueNode.Some? && AsString(valueNode.value).Some? ==>
      && def.dataType != FixedString
      && AsString(valueNode.value).value != TotalLengthKeyword
      && AsString(valueNode.value).value != HeadLengthKeyword
      && AsInteger(valueNode.value, readInt, Int64Min, Int64Max).None?
      && r.error == InvalidLiteral(AsString(valueNode.value).value, def.name)
  {
    if valueNode.None? then Failure(MissingValue(def.name))
    else match AsString(valueNode.value)
      case None => Failure(BadConversion("value"))
      case Some(text) =>
        if text == TotalLengthKeyword then Success((CalcTotalPacketLength, def))
        else if text == HeadLengthKeyword then Success((CalcProtobufHeadLength, def))
        else
          var literal := def.(valueRule := Literal);
          if def.dataType != FixedString then
            match AsInteger(valueNode.value, readInt, Int64Min, Int64Max)
            case Some(v) => Success((Literal, literal.(literalValue := IntLiteral(v))))
            case None => Failure(InvalidLiteral(text, def.name))
          else Success((Literal, literal.(literalValue := StrLiteral(text))))
  }

  /** The number of bytes the UTF-8 encoding of `c` takes. */
  function Utf8Width(c: char): nat {
    if c as int < 0x80 then 1 else if c as int < 0x800 then 2 else if c as int < 0x1_0000 then 3 else 4
  }

  /**
   * `std::string::length()` of the UTF-8 text yaml-cpp hands back: each char
   * takes one to four bytes, and ASCII text takes exactly one byte per char.
   */
  function Utf8Length(s: string): (n: nat)
    ensures |s| <= n <= 4 * |s|
    ensures (forall i :: 0 <= i < |s| ==> s[i] as int < 0x80) ==> n == |s|
  {
    if |s| == 0 then 0 else Utf8Width(s[0]) + Utf8Length(s[1..])
  }

  /**
   * `validate_field_def`: the size suits the type and, under the literal rule,
   * a fixed string holds a string whose byte length does not exceed the field
   * and a numeric field does not hold a string. The computed rules check no
   * literal.
   */
  function ValidateFieldDef(def: FieldDef): (r: bool)
    ensures r ==> CheckSizeConsistency(def.dataType, def.sizeBytes)
    ensures CheckSizeConsistency(def.dataType, def.sizeBytes) && def.valueRule != Literal ==> r
    ensures def.valueRule == Literal && def.dataType == FixedString ==>
      (r <==> CheckSizeConsistency(def.dataType, def.sizeBytes)
              && def.literalValue.StrLiteral? && Utf8Length(def.literalValue.s) <= def.sizeBytes)
    ensures def.valueRule == Literal && def.dataType != FixedString ==>
      (r <==> CheckSizeConsistency(def.dataType, def.sizeBytes) && !def.literalValue.StrLiteral?)
  {
    if !CheckSizeConsistency(def.dataType, def.sizeBytes) then false
    else if def.dataType == FixedString then
      if !def.literalValue.StrLiteral? && def.valueRule == Literal then false
      else if def.valueRule == Literal && Utf8Length(def.literalValue.s) > def.sizeBytes then false
      else true
    else if def.valueRule == Literal then
      if def.literalValue.StrLiteral? then false else true
    else true
  }

  /** Under a computed rule the literal is never looked at: any literal validates the same way. */
  lemma CalcRulesIgnoreLiteral(def: FieldDef, other: LiteralValue)
    requires def.valueRule != Literal
    ensures ValidateFieldDef(def) == ValidateFieldDef(def.(literalValue := other))
  {
  }

  /**
   * A literal produced by `parse_value_rule` always has the variant its type
   * needs, so such a field validates exactly when its size suits its type
   * and, for a fixed string, the text fits.
   */
  lemma ParsedLiteralHasRightVariant(valueNode: Option<Node>, def: FieldDef, readInt: string -> Option<int>)
    requires ParseValueRule(valueNode, def, readInt).Success?
    ensures var (rule, d) := ParseValueRule(valueNode, def, readInt).value;
      rule == Literal ==>
        && (d.dataType == FixedString <==> d.literalValue.StrLiteral?)
        && (ValidateFieldDef(d) <==>
              CheckSizeConsistency(d.dataType, d.sizeBytes)
              && (d.dataType == FixedString ==> Utf8Length(d.literalValue.s) <= d.sizeBytes))
  {
  }

  /**
   * One entry of `frame_header.fields`: all four keys present, then the name,
   * size and type converted, the value rule parsed, and the result validated.
   */
  function ParseField(n: Node, readInt: string -> Option<int>): Result<FieldDef, LoadError> {
    var nameNode := Lookup(n, "name");
    var sizeNode := Lookup(n, "size");
    var typeNode := Lookup(n, "type");
    var valueNode := Lookup(n, "value");
    if nameNode.None? || sizeNode.None? || typeNode.None? || valueNode.None? then Failure(IncompleteField)
    else match AsString(nameNode.value)
      case None => Failure(BadConversion("name"))
      case Some(name) =>
        match AsInteger(sizeNode.value, readInt, Int32Min, Int32Max)
        case None => Failure(BadConversion("size"))
        case Some(size) =>
          match AsString(typeNode.value)
          case None => Failure(BadConversion("type"))
          case Some(typeName) =>
            match StringToDataType(typeName)
            case None => Failure(UnknownDataType(typeName))
            case Some(dataType) =>
              var def := FieldDef(name, size, dataType, Literal, IntLiteral(0));
              match ParseValueRule(valueNode, def, readInt)
              case Failure(e) => Failure(e)
              case Success((rule, parsed)) =>
                var field := parsed.(valueRule := rule);
                if !ValidateFieldDef(field) then Failure(InvalidFieldDef(name)) else Success(field)
  }

  /**
   * What parsing one entry promises: a missing key is `IncompleteField`; a
   * parsed definition validates, and its name, size and type are the
   * entry's, converted.
   */
  lemma ParseFieldOutcome(n: Node, readInt: string -> Option<int>)
    ensures var r := ParseField(n, readInt);
      && (r.Success? ==> ValidateFieldDef(r.value))
      && (r.Success? ==>
          && Lookup(n, "name").Some? && Lookup(n, "size").Some? && Lookup(n, "type").Some? && Lookup(n, "value").Some?
          && Some(r.value.name) == AsString(Lookup(n, "name").value)
          && Some(r.value.sizeBytes) == AsInteger(Lookup(n, "size").value, readInt, Int32Min, Int32Max)
          && AsString(Lookup(n, "type").value).Some?
          && StringToDataType(AsString(Lookup(n, "type").value).value) == Some(r.value.dataType))
      && (Lookup(n, "name").None? || Lookup(n, "size").None? || Lookup(n, "type").None? || Lookup(n, "value").None?
          ==> r == Failure(IncompleteField))
  {
  }

  // ----- the whole document -----

  /** The field loop: every entry parsed in order, stopping at the first that fails. */
  function LoadFields(items: seq<Node>, readInt: string -> Option<int>): Result<seq<FieldDef>, LoadError>
    decreases |items|
  {
    if |items| == 0 then Success([])
    else
      var field := ParseField(items[0], readInt);
      if field.Failure? then Failure(field.error)
      else
        match LoadFields(items[1..], readInt)
        case Failure(e) => Failure(e)
        case Success(rest) => Success([field.value] + rest)
  }

  /**
   * The entries load when each of them parses, into one definition per
   * entry in entry order; otherwise the error is that of the first entry
   * that fails.
   */
  lemma {:induction false} LoadFieldsOutcome(items: seq<Node>, readInt: string -> Option<int>)
    ensures var r := LoadFields(items, readInt);
      && (r.Success? <==> forall i :: 0 <= i < |items| ==> ParseField(items[i], readInt).Success?)
      && (r.Success? ==>
          && |r.value| == |items|
          && forall i :: 0 <= i < |items| ==> ParseField(items[i], readInt) == Success(r.value[i]))
      && (r.Failure? ==>
          exists i :: && 0 <= i < |items|
                      && (forall j :: 0 <= j < i ==> ParseField(items[j], readInt).Success?)
                      && ParseField(items[i], readInt) == Failure(r.error))
    decreases |items|
  {
    if |items| > 0 && ParseField(items[0], readInt).Success? {
      var field := ParseField(items[0], readInt);
      LoadFieldsOutcome(items[1..], readInt);
      assert forall i :: 1 <= i < |items| ==> items[1..][i - 1] == items[i];
      var rest := LoadFields(items[1..], readInt);
      if rest.Failure? {
        var i :| 0 <= i < |items[1..]|
          && (forall j :: 0 <= j < i ==> ParseField(items[1..][j], readInt).Success?)
          && ParseField(items[1..][i], readInt) == Failure(rest.error);
        assert forall j :: 1 <= j < i + 1 ==> ParseField(items[j], readInt).Success?;
        assert ParseField(items[i + 1], readInt) == Failure(rest.error);
      } else {
        var r := [field.value] + rest.value;
        assert forall i :: 1 <= i < |items| ==> r[i] == rest.value[i - 1];
      }
    }
  }

  /** `load_config`: the file must exist and parse, and hold a `frame_header.fields` sequence. */
  function LoadSpec(doc: Document, readInt: string -> Option<int>): (r: Result<HeaderConfig, LoadError>)
    ensures r.Success? ==> doc.Parsed?
  {
    match doc
    case NotFound => Failure(FileNotFound)
    case Malformed => Failure(YamlSyntax)
    case Parsed(root) =>
      var header := Lookup(root, "frame_header");
      if header.None? || Lookup(header.value, "fields").None? then Failure(MissingFrameHeader)
      else
        var fields := Lookup(header.value, "fields").value;
        if !fields.Sequence? then Failure(FieldsNotSequence)
        else match LoadFields(fields.items, readInt)
          case Failure(e) => Failure(e)
          case Success(defs) => Success(HeaderConfig(defs))
  }

  /** The `frame_header.fields` node of a document, when it has one. */
  function FieldsNode(doc: Document): Option<Node> {
    if doc.Parsed? && Lookup(doc.root, "frame_header").Some? then Lookup(Lookup(doc.root, "frame_header").value, "fields")
    else None
  }

  /**
   * What loading promises: the structural errors, and on success one field
   * definition per entry, in entry order, each of which validates.
   */
  lemma LoadSpecShape(doc: Document, readInt: string -> Option<int>)
    ensures doc.Parsed? && FieldsNode(doc).None? ==> LoadSpec(doc, readInt) == Failure(MissingFrameHeader)
    ensures FieldsNode(doc).Some? && !FieldsNode(doc).value.Sequence? ==> LoadSpec(doc, readInt) == Failure(FieldsNotSequence)
    ensures LoadSpec(doc, readInt).Success? ==>
      && FieldsNode(doc).Some? && FieldsNode(doc).value.Sequence?
      && var items := FieldsNode(doc).value.items;
         var defs := LoadSpec(doc, readInt).value.fields;
         && |defs| == |items|
         && forall i :: 0 <= i < |items| ==> ParseField(items[i], readInt) == Success(defs[i]) && ValidateFieldDef(defs[i])
  {
    if FieldsNode(doc).Some? && FieldsNode(doc).value.Sequence? {
      var items := FieldsNode(doc).value.items;
      LoadFieldsOutcome(items, readInt);
      forall i | 0 <= i < |items|
        ensures ParseField(items[i], readInt).Success? ==> ValidateFieldDef(ParseField(items[i], readInt).value)
      {
        ParseFieldOutcome(items[i], readInt);
      }
    }
  }

  /** A field entry with the four keys, each value a scalar. */
  function FieldEntry(name: string, size: string, typeName: string, value: string): Node {
    Mapping(map["name" := Scalar(name), "size" := Scalar(size), "type" := Scalar(typeName), "value" := Scalar(value)])
  }

  /** The document whose header is the given field entries. */
  function HeaderDocument(entries: seq<Node>): Document {
    Parsed(Mapping(map["frame_header" := Mapping(map["fields" := Sequence(entries)])]))
  }

  /** The default header, a total length and a head length, both big-endian 32-bit, loads as two computed fields. */
  lemma DefaultHeaderLoads(readInt: string -> Option<int>)
    requires readInt("4") == Some(4)
    ensures LoadSpec(HeaderDocument([FieldEntry("total_packet_length", "4", "uint32_be", TotalLengthKeyword),
                                     FieldEntry("proto_header_length", "4", "uint32_be", HeadLengthKeyword)]), readInt)
         == Success(HeaderConfig([FieldDef("total_packet_length", 4, Uint32Be, CalcTotalPacketLength, IntLiteral(0)),
                                  FieldDef("proto_header_length", 4, Uint32Be, CalcProtobufHeadLength, IntLiteral(0))]))
  {
    var e1 := FieldEntry("total_packet_length", "4", "uint32_be", TotalLengthKeyword);
    var e2 := FieldEntry("proto_header_length", "4", "uint32_be", HeadLengthKeyword);
    var d1 := FieldDef("total_packet_length", 4, Uint32Be, CalcTotalPacketLength, IntLiteral(0));
    var d2 := FieldDef("proto_header_length", 4, Uint32Be, CalcProtobufHeadLength, IntLiteral(0));
    assert ParseField(e1, readInt) == Success(d1);
    assert ParseField(e2, readInt) == Success(d2);
    LoadFieldsAllParsed([e1, e2], readInt, [d1, d2]);
  }

  /** A fixed string whose literal is longer than the field is refused. */
  lemma LongFixedStringRefused(readInt: string -> Option<int>)
    requires readInt("3") == Some(3)
    ensures ParseField(FieldEntry("short_string", "3", "fixed_string", "TOOLONG"), readInt)
         == Failure(InvalidFieldDef("short_string"))
  {
    var e := FieldEntry("short_string", "3", "fixed_string", "TOOLONG");
    assert AsString(Lookup(e, "type").value) == Some("fixed_string");
    assert ParseValueRule(Lookup(e, "value"), FieldDef("short_string", 3, FixedString, Literal, IntLiteral(0)), readInt)
        == Success((Literal, FieldDef("short_string", 3, FixedString, Literal, StrLiteral("TOOLONG"))));
  }

  /**
   * The limit counts bytes, not chars: two three-byte chars do not fit a
   * four-byte fixed string, although they are only two chars.
   */
  lemma MultiByteLiteralRefused(readInt: string -> Option<int>)
    requires readInt("4") == Some(4)
    ensures ParseField(FieldEntry("label", "4", "fixed_string", "\U{65E5}\U{672C}"), readInt)
         == Failure(InvalidFieldDef("label"))
  {
    var e := FieldEntry("label", "4", "fixed_string", "\U{65E5}\U{672C}");
    assert AsString(Lookup(e, "type").value) == Some("fixed_string");
    assert ParseValueRule(Lookup(e, "value"), FieldDef("label", 4, FixedString, Literal, IntLiteral(0)), readInt)
        == Success((Literal, FieldDef("label", 4, FixedString, Literal, StrLiteral("\U{65E5}\U{672C}"))));
    assert Utf8Length("\U{65E5}\U{672C}") == 6;
  }

  /**
   * `load_config` as the source writes it: the checks on the document, then
   * a loop that parses each entry and appends it to the result.
   */
  method LoadConfig(doc: Document, readInt: string -> Option<int>) returns (r: Result<HeaderConfig, LoadError>)
    ensures r == LoadSpec(doc, readInt)
  {
    if doc.NotFound? {
      return Failure(FileNotFound);
    }
    if doc.Malformed? {
      return Failure(YamlSyntax);
    }
    var header := Lookup(doc.root, "frame_header");
    if header.None? || Lookup(header.value, "fields").None? {
      return Failure(MissingFrameHeader);
    }
    var fieldsNode := Lookup(header.value, "fields").value;
    if !fieldsNode.Sequence? {
      return Failure(FieldsNotSequence);
    }
    var items := fieldsNode.items;
    var fields: seq<FieldDef> := [];
    var i := 0;
    while i < |items|
      invariant 0 <= i <= |items| && |fields| == i
      invariant forall k :: 0 <= k < i ==> ParseField(items[k], readInt) == Success(fields[k])
    {
      var field := ParseField(items[i], readInt);
      if field.Failure? {
        LoadFieldsFirstFailure(items, readInt, i);
        return Failure(field.error);
      }
      fields := fields + [field.value];
      i := i + 1;
    }
    LoadFieldsAllParsed(items, readInt, fields);
    r := Success(HeaderConfig(fields));
  }

  /** When every entry parses, the loop's result is exactly the parsed entries. */
  lemma {:induction false} LoadFieldsAllParsed(items: seq<Node>, readInt: string -> Option<int>, fields: seq<FieldDef>)
    requires |fields| == |items|
    requires forall k :: 0 <= k < |items| ==> ParseField(items[k], readInt) == Success(fields[k])
    ensures LoadFields(items, readInt) == Success(fields)
    decreases |items|
  {
    if |items| > 0 {
      assert forall k :: 0 <= k < |items[1..]| ==> items[1..][k] == items[k + 1] && fields[1..][k] == fields[k + 1];
      LoadFieldsAllParsed(items[1..], readInt, fields[1..]);
      assert fields == [fields[0]] + fields[1..];
    }
  }

  /** The loop's error is that of the first entry that fails. */
  lemma {:induction false} LoadFieldsFirstFailure(items: seq<Node>, readInt: string -> Option<int>, i: int)
    requires 0 <= i < |items|
    requires forall k :: 0 <= k < i ==> ParseField(items[k], readInt).Success?
    requires ParseField(items[i], readInt).Failure?
    ensures LoadFields(items, readInt) == Failure(ParseField(items[i], readInt).error)
    decreases i
  {
    if i > 0 {
      assert forall k :: 0 <= k < |items[1..]| ==> items[1..][k] == items[k + 1];
      LoadFieldsFirstFailure(items[1..], readInt, i - 1);
    }
  }
}
