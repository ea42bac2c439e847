/** Stored history values: normal forms, redaction, hashes, and the two searches over them
    (exact by hash, partial by an escaped LIKE pattern). */
module HistoryValues {
  import opened Wrappers

  datatype ValueType =
    | NullType | StringType | TextType | UuidType | IntegerType | DecimalType | MoneyType | BooleanType
    | DateType | TimestampType | EnumType | PhoneType | EmailType | UrlType | FileType | ReferenceType

  datatype Redaction = Plain | Mask | HashOnly | Omit

  datatype Scalar = Scalar(
    valueType: ValueType,
    text: Option<string>,
    normalized: Option<string>,
    refTable: Option<string>,
    refPk: Option<string>,
    refLabel: Option<string>)

  datatype TrackedField = TrackedField(
    valueType: ValueType,
    trackCurrent: bool,
    refTable: Option<string>,
    normalizer: Option<string>,
    redaction: Redaction)

  datatype Prepared = Prepared(
    text: Option<string>,
    normalized: Option<string>,
    hash: Option<string>,
    refTable: Option<string>,
    refPk: Option<string>,
    refLabel: Option<string>)

  /** Library text functions that the service calls; nothing is assumed of them. */
  datatype Library = Library(
    trim: string -> string,
    lower: string -> string,
    integer: string -> string,
    decimal: string -> string,
    date: string -> string,
    timestamp: string -> string,
    url: string -> string,
    mask: string -> string,
    sha: string -> string)

  const UZ_PHONE := "uz_phone_e164"

  function Digits(s: string): string {
    if s == "" then ""
    else (if '0' <= s[0] <= '9' then [s[0]] else "") + Digits(s[1..])
  }

  function NormalizePhone(value: string, normalizer: Option<string>): string {
    var digits := Digits(value);
    if normalizer == Some(UZ_PHONE) && |digits| == 9 then "+998" + digits
    else if normalizer == Some(UZ_PHONE) && |digits| == 12 && "998" <= digits then "+" + digits
    else if "+" <= value && digits != "" then "+" + digits
    else digits
  }

  function NormalizeBoolean(lib: Library, value: string): string {
    var lower := lib.lower(value);
    if lower in {"true", "1", "yes", "y", "on"} then "true"
    else if lower in {"false", "0", "no", "n", "off"} then "false"
    else lower
  }

  function NormalizeValue(lib: Library, value: Option<string>, t: ValueType,
                          normalizer: Option<string>): Option<string> {
    if value == None then None
    else
      var trimmed := lib.trim(value.value);
      if trimmed == "" then Some("")
      else
        match t
        case NullType => None
        case PhoneType => Some(NormalizePhone(trimmed, normalizer))
        case EmailType => Some(lib.lower(trimmed))
        case UuidType => Some(lib.lower(trimmed))
        case IntegerType => Some(lib.integer(trimmed))
        case DecimalType => Some(lib.decimal(trimmed))
        case MoneyType => Some(lib.decimal(trimmed))
        case BooleanType => Some(NormalizeBoolean(lib, trimmed))
        case DateType => Some(lib.date(trimmed))
        case TimestampType => Some(lib.timestamp(trimmed))
        case UrlType => Some(lib.url(trimmed))
        case ReferenceType => Some(trimmed)
        case StringType => Some(lib.lower(trimmed))
        case TextType => Some(lib.lower(trimmed))
        case EnumType => Some(lib.lower(trimmed))
        case FileType => Some(lib.lower(trimmed))
  }

  // What a normal form is

  /** The digits of a text, in order: every other character is dropped. */
  lemma {:induction false} DigitsOf(s: string, t: string)
    ensures Digits(s + t) == Digits(s) + Digits(t)
  {
    if s != "" {
      DigitsOf(s[1..], t);
      assert (s + t)[1..] == s[1..] + t;
      DigitsOneMore(s);
      DigitsOneMore(s + t);
      hide Digits;
      assert Digits([s[0]]) + (Digits(s[1..]) + Digits(t)) == Digits([s[0]]) + Digits(s[1..]) + Digits(t);
    } else {
      assert s + t == t;
    }
  }

  lemma DigitsOneMore(s: string)
    requires s != ""
    ensures Digits([s[0]]) == if '0' <= s[0] <= '9' then [s[0]] else ""
    ensures Digits(s) == Digits([s[0]]) + Digits(s[1..])
  {
    assert [s[0]][1..] == "";
  }

  lemma {:induction false} DigitsAreDigits(s: string)
    ensures forall c :: c in Digits(s) ==> '0' <= c <= '9'
    ensures (forall c :: c in s ==> '0' <= c <= '9') ==> Digits(s) == s
  {
    if s != "" {
      DigitsAreDigits(s[1..]);
      assert s == [s[0]] + s[1..] && s[0] in s && forall c :: c in s[1..] ==> c in s;
    }
  }

  /** Nine digits are an Uzbek number without its country code and twelve may be one with it;
      any other phone keeps its digits and a leading plus sign. */
  ghost predicate IsPhoneForm(phone: string, normalizer: Option<string>, form: string) {
    var digits := Digits(phone);
    var uzbek := normalizer == Some("uz_phone_e164") && (|digits| == 9 || (|digits| == 12 && digits[..3] == "998"));
    && (uzbek && |digits| == 9 ==> form == "+998" + digits)
    && (uzbek && |digits| == 12 ==> form == "+" + digits)
    && (!uzbek && phone != "" && phone[0] == '+' && digits != "" ==> form == "+" + digits)
    && (!uzbek && (phone == "" || phone[0] != '+' || digits == "") ==> form == digits)
  }

  ghost predicate IsTruthForm(word: string, form: string) {
    && (word in {"true", "1", "yes", "y", "on"} ==> form == "true")
    && (word in {"false", "0", "no", "n", "off"} ==> form == "false")
    && (word !in {"true", "1", "yes", "y", "on", "false", "0", "no", "n", "off"} ==> form == word)
  }

  /** The normal form of a raw value by its type.  A blank value has an empty one. */
  ghost predicate IsNormalForm(lib: Library, raw: string, t: ValueType, normalizer: Option<string>,
                               form: Option<string>) {
    var x := lib.trim(raw);
    if x == "" then form == Some("")
    else
      && (form == None <==> t == NullType)
      && (t in {EmailType, UuidType, StringType, TextType, EnumType, FileType} ==> form == Some(lib.lower(x)))
      && (t == ReferenceType ==> form == Some(x))
      && (t == IntegerType ==> form == Some(lib.integer(x)))
      && (t in {DecimalType, MoneyType} ==> form == Some(lib.decimal(x)))
      && (t == DateType ==> form == Some(lib.date(x)))
      && (t == TimestampType ==> form == Some(lib.timestamp(x)))
      && (t == UrlType ==> form == Some(lib.url(x)))
      && (t == BooleanType ==> IsTruthForm(lib.lower(x), form.value))
      && (t == PhoneType ==> IsPhoneForm(x, normalizer, form.value))
  }

  lemma PhoneFormIs(phone: string, normalizer: Option<string>, form: string)
    ensures IsPhoneForm(phone, normalizer, form) <==> NormalizePhone(phone, normalizer) == form
  {
    hide Digits;
    var digits := Digits(phone);
    assert "998" <= digits <==> |digits| >= 3 && digits[..3] == "998";
    assert "+" <= phone <==> phone != "" && phone[0] == '+';
  }

  lemma TruthFormIs(lib: Library, value: string, form: string)
    ensures IsTruthForm(lib.lower(value), form) <==> NormalizeBoolean(lib, value) == form
  {
  }

  lemma NormalFormIs(lib: Library, raw: string, t: ValueType, normalizer: Option<string>, form: Option<string>)
    ensures IsNormalForm(lib, raw, t, normalizer, form) <==> NormalizeValue(lib, Some(raw), t, normalizer) == form
    ensures NormalizeValue(lib, None, t, normalizer) == None
  {
    var x := lib.trim(raw);
    if form.Some? {
      PhoneFormIs(x, normalizer, form.value);
      TruthFormIs(lib, x, form.value);
    }
    hide NormalizePhone, NormalizeBoolean, IsPhoneForm, IsTruthForm;
    match t
    case NullType =>
    case PhoneType =>
    case BooleanType =>
    case IntegerType =>
    case _ =>
  }

  lemma DigitsOfForms(digits: string)
    requires forall c :: c in digits ==> '0' <= c <= '9'
    ensures Digits(digits) == Digits("+" + digits) == digits && Digits("+998" + digits) == "998" + digits
  {
    hide Digits;
    DigitsAreDigits(digits);
    DigitsAreDigits("998" + digits);
    PlusIsSkipped(digits);
    PlusIsSkipped("998" + digits);
    assert "+998" + digits == "+" + ("998" + digits);
  }

  lemma PlusIsSkipped(s: string)
    ensures Digits("+" + s) == Digits(s)
  {
    assert ("+" + s)[1..] == s;
  }

  /** Normalising a phone again changes nothing. */
  lemma PhoneFormIsStable(phone: string, normalizer: Option<string>)
    ensures NormalizePhone(NormalizePhone(phone, normalizer), normalizer) == NormalizePhone(phone, normalizer)
  {
    hide Digits, NormalizePhone;
    var digits, form := Digits(phone), NormalizePhone(phone, normalizer);
    DigitsAreDigits(phone);
    DigitsOfForms(digits);
    assert "+" + ("998" + digits) == "+998" + digits && ("998" + digits)[..3] == "998";
    assert digits != "" ==> digits[0] in digits;
    PhoneFormIs(phone, normalizer, form);
    PhoneFormIs(form, normalizer, form);
  }

  function First(a: Option<string>, b: Option<string>): Option<string> {
    if a.Some? then a else b
  }

  function EffectiveType(value: Scalar, field: Option<TrackedField>): ValueType {
    if field.Some? then field.value.valueType else value.valueType
  }

  /** The columns stored for a value under the redaction of its tracked field. */
  function PrepareScalar(lib: Library, value: Scalar, field: Option<TrackedField>): Prepared {
    var rawNormalized :=
      First(value.normalized,
            NormalizeValue(lib, First(value.refPk, value.text), EffectiveType(value, field),
                           if field.Some? then field.value.normalizer else None));
    var rawHash := if rawNormalized == None then None else Some(lib.sha(rawNormalized.value));
    var refTable := First(value.refTable, if field.Some? then field.value.refTable else None);
    match if field.Some? then field.value.redaction else Plain
    case Omit => Prepared(None, None, None, refTable, None, None)
    case HashOnly => Prepared(None, None, rawHash, refTable, value.refPk, None)
    case Mask =>
      Prepared(if value.text == None then None else Some(lib.mask(value.text.value)), None, rawHash, refTable,
               value.refPk, value.refLabel)
    case Plain => Prepared(value.text, rawNormalized, rawHash, refTable, value.refPk, value.refLabel)
  }

  /** What is kept of a value, column by column: the text is kept plain or masked, the normal form
      only plain, the hash and the reference unless all is omitted, the label plain or masked,
      and the referenced table always. */
  ghost predicate IsKept(lib: Library, value: Scalar, field: Option<TrackedField>, kept: Prepared) {
    var redaction := if field == None then Plain else field.value.redaction;
    var normal :=
      if value.normalized.Some? then value.normalized
      else NormalizeValue(lib, if value.refPk == None then value.text else value.refPk,
                          if field == None then value.valueType else field.value.valueType,
                          if field == None then None else field.value.normalizer);
    && (redaction == Plain ==> kept.text == value.text && kept.normalized == normal)
    && (redaction != Plain ==> kept.normalized == None)
    && (redaction == Mask && value.text.Some? ==> kept.text == Some(lib.mask(value.text.value)))
    && (redaction in {HashOnly, Omit} || value.text == None ==> kept.text == None)
    && (redaction == Omit || normal == None ==> kept.hash == None)
    && (redaction != Omit && normal.Some? ==> kept.hash == Some(lib.sha(normal.value)))
    && kept.refPk == (if redaction == Omit then None else value.refPk)
    && kept.refLabel == (if redaction in {Plain, Mask} then value.refLabel else None)
    && (value.refTable.Some? ==> kept.refTable == value.refTable)
    && (value.refTable == None ==> kept.refTable == if field == None then None else field.value.refTable)
  }

  lemma PreparedIsKept(lib: Library, value: Scalar, field: Option<TrackedField>)
    ensures IsKept(lib, value, field, PrepareScalar(lib, value, field))
    ensures forall kept :: IsKept(lib, value, field, kept) ==> kept == PrepareScalar(lib, value, field)
  {
  }

  /** Two values with the same normal form and the same reference leave the same trace under
      hash_only, whatever their texts and labels. */
  lemma HashOnlyHidesText(lib: Library, one: Scalar, two: Scalar, field: TrackedField)
    requires field.redaction == HashOnly && one.normalized == two.normalized && one.normalized.Some?
    requires one.refPk == two.refPk && one.refTable == two.refTable
    ensures PrepareScalar(lib, one, Some(field)) == PrepareScalar(lib, two, Some(field))
  {
  }

  // Exact search

  const FALLBACK_TYPES: seq<ValueType> :=
    [StringType, TextType, EmailType, PhoneType, UuidType, IntegerType, DecimalType, MoneyType, BooleanType,
     DateType, TimestampType, EnumType, UrlType, ReferenceType]

  /** The hashes one searched type contributes. */
  ghost function TypeHashes(lib: Library, value: string, t: ValueType): set<string> {
    var plain := NormalizeValue(lib, Some(value), t, None);
    var phone := NormalizeValue(lib, Some(value), t, Some(UZ_PHONE));
    (if plain.Some? then {lib.sha(plain.value)} else {}) +
    (if t == PhoneType && phone.Some? then {lib.sha(phone.value)} else {})
  }

  function SearchedTypes(valueType: Option<ValueType>): seq<ValueType> {
    if valueType.Some? then [valueType.value] else FALLBACK_TYPES
  }

  method SearchHashes(lib: Library, value: string, valueType: Option<ValueType>) returns (hashes: set<string>)
    ensures forall h :: h in hashes <==>
              exists t :: t in SearchedTypes(valueType) && h in TypeHashes(lib, value, t)
    ensures forall h :: h in hashes <==> IsSearched(lib, value, valueType, h)
  {
    var types := SearchedTypes(valueType);
    hashes := {};
    for i := 0 to |types|
      invariant forall h :: h in hashes <==> exists t :: t in types[..i] && h in TypeHashes(lib, value, t)
    {
      ghost var before := hashes;
      var normalized := NormalizeValue(lib, Some(value), types[i], None);
      if normalized.Some? {
        hashes := hashes + {lib.sha(normalized.value)};
      }
      if types[i] == PhoneType {
        var uzPhone := NormalizeValue(lib, Some(value), types[i], Some(UZ_PHONE));
        if uzPhone.Some? {
          hashes := hashes + {lib.sha(uzPhone.value)};
        }
      }
      assert hashes == before + TypeHashes(lib, value, types[i]);
      forall h
        ensures h in hashes <==> exists t :: t in types[..i + 1] && h in TypeHashes(lib, value, t)
      {
        assert types[..i + 1] == types[..i] + [types[i]];
        if h in TypeHashes(lib, value, types[i]) {
          assert types[i] in types[..i + 1];
        } else if t :| t in types[..i] && h in TypeHashes(lib, value, t) {
          assert t in types[..i + 1];
        }
      }
    }
    forall h
      ensures h in hashes <==> IsSearched(lib, value, valueType, h)
    {
      SearchedHash(lib, value, valueType, h);
    }
  }

  /** The hash of a normal form that the value has under the type given or, if none is given,
      under any type but null and file; a phone also has its Uzbek form. */
  ghost predicate IsSearched(lib: Library, value: string, valueType: Option<ValueType>, h: string) {
    exists t, normalizer, form ::
      && IsNormalForm(lib, value, t, normalizer, Some(form)) && h == lib.sha(form)
      && (valueType == Some(t) || (valueType == None && t != NullType && t != FileType))
      && (normalizer == None || (t == PhoneType && normalizer == Some("uz_phone_e164")))
  }

  lemma SearchedHash(lib: Library, value: string, valueType: Option<ValueType>, h: string)
    ensures (exists t :: t in SearchedTypes(valueType) && h in TypeHashes(lib, value, t))
            <==> IsSearched(lib, value, valueType, h)
  {
    hide NormalizeValue, IsNormalForm;
    forall t: ValueType
      ensures t in SearchedTypes(valueType) <==>
              valueType == Some(t) || (valueType == None && t != NullType && t != FileType)
    {
      TypeIsSearched(t, valueType);
    }
    hide SearchedTypes;
    if t :| t in SearchedTypes(valueType) && h in TypeHashes(lib, value, t) {
      var plain := NormalizeValue(lib, Some(value), t, None);
      var phone := NormalizeValue(lib, Some(value), t, Some(UZ_PHONE));
      NormalFormIs(lib, value, t, None, plain);
      NormalFormIs(lib, value, t, Some(UZ_PHONE), phone);
      if plain.Some? && h == lib.sha(plain.value) {
        assert IsNormalForm(lib, value, t, None, Some(plain.value));
      } else {
        assert IsNormalForm(lib, value, t, Some(UZ_PHONE), Some(phone.value));
      }
    }
    if t, normalizer, form :|
        && IsNormalForm(lib, value, t, normalizer, Some(form)) && h == lib.sha(form)
        && (valueType == Some(t) || (valueType == None && t != NullType && t != FileType))
        && (normalizer == None || (t == PhoneType && normalizer == Some("uz_phone_e164")))
    {
      NormalFormIs(lib, value, t, normalizer, Some(form));
      assert h in TypeHashes(lib, value, t);
    }
  }

  lemma TypeIsSearched(t: ValueType, valueType: Option<ValueType>)
    ensures t in SearchedTypes(valueType) <==>
            valueType == Some(t) || (valueType == None && t != NullType && t != FileType)
  {
    if valueType == None && t != NullType && t != FileType {
      var types := FALLBACK_TYPES;
      assert types[0] == StringType && types[1] == TextType && types[2] == EmailType && types[3] == PhoneType
             && types[4] == UuidType && types[5] == IntegerType && types[6] == DecimalType && types[7] == MoneyType
             && types[8] == BooleanType && types[9] == DateType && types[10] == TimestampType && types[11] == EnumType
             && types[12] == UrlType && types[13] == ReferenceType;
    }
  }

  /** Whatever the value's type, the field's type, normaliser and redaction (unless it omits
      values): the hash stored for a raw value is among the hashes searched for the same raw
      value, by its type and without one.  The raw value of a reference is the key it refers to,
      of any other value its text. */
  lemma SearchFindsStored(lib: Library, raw: string, scalar: Scalar, field: Option<TrackedField>)
    requires scalar.normalized == None && Some(raw) == if scalar.refPk.Some? then scalar.refPk else scalar.text
    requires field.Some? ==> field.value.redaction != Omit
    requires PrepareScalar(lib, scalar, field).hash.Some?
    ensures var hash := PrepareScalar(lib, scalar, field).hash.value;
            && IsSearched(lib, raw, Some(if field.Some? then field.value.valueType else scalar.valueType), hash)
            && IsSearched(lib, raw, None, hash)
  {
    var hash, stored := PrepareScalar(lib, scalar, field).hash.value, EffectiveType(scalar, field);
    if stored == PhoneType {
      OtherNormalizersAreIgnored(lib, raw, if field.Some? then field.value.normalizer else None);
    }
    assert hash in TypeHashes(lib, raw, stored);
    if stored == FileType {
      assert FALLBACK_TYPES[1] == TextType && hash in TypeHashes(lib, raw, TextType);
    } else if stored == NullType {
      assert FALLBACK_TYPES[0] == StringType && hash in TypeHashes(lib, raw, StringType);
    } else {
      assert stored in FALLBACK_TYPES;
    }
    assert exists u :: u in SearchedTypes(None) && hash in TypeHashes(lib, raw, u);
    assert stored in SearchedTypes(Some(stored));
    SearchedHash(lib, raw, Some(stored), hash);
    SearchedHash(lib, raw, None, hash);
  }

  /** Only the Uzbek phone normaliser changes a phone's normal form. */
  lemma OtherNormalizersAreIgnored(lib: Library, raw: string, normalizer: Option<string>)
    ensures NormalizeValue(lib, Some(raw), PhoneType, normalizer) in
            {NormalizeValue(lib, Some(raw), PhoneType, None), NormalizeValue(lib, Some(raw), PhoneType, Some(UZ_PHONE))}
  {
  }

  /** However an Uzbek number is written, with or without country code, signs and spaces, its
      writings have one normal form, and searching for one finds the hash of any other. */
  lemma UzbekNumbersMeet(lib: Library, stored: string, term: string, number: string)
    requires |number| == 9 && (forall c :: c in number ==> '0' <= c <= '9')
    requires Digits(lib.trim(stored)) in {number, "998" + number} && Digits(lib.trim(term)) in {number, "998" + number}
    ensures NormalizeValue(lib, Some(stored), PhoneType, Some(UZ_PHONE)) == Some("+998" + number)
    ensures IsSearched(lib, term, Some(PhoneType), lib.sha("+998" + number))
    ensures IsSearched(lib, term, None, lib.sha("+998" + number))
  {
    var form := "+998" + number;
    assert "+" + ("998" + number) == form;
    assert ("998" + number)[..3] == "998";
    assert Digits("") == "";
    hide Digits;
    NormalFormIs(lib, stored, PhoneType, Some(UZ_PHONE), Some(form));
    NormalFormIs(lib, term, PhoneType, Some(UZ_PHONE), Some(form));
    assert IsNormalForm(lib, term, PhoneType, Some(UZ_PHONE), Some(form));
  }

  /** With an injective hash, a search only finds values with a normal form of the term. */
  lemma SearchFindsOnlyEqual(lib: Library, term: string, raw: string, scalar: Scalar, field: Option<TrackedField>,
                             valueType: Option<ValueType>)
    requires forall x, y :: lib.sha(x) == lib.sha(y) ==> x == y
    requires scalar.normalized == None && Some(raw) == if scalar.refPk.Some? then scalar.refPk else scalar.text
    requires PrepareScalar(lib, scalar, field).hash.Some?
    requires IsSearched(lib, term, valueType, PrepareScalar(lib, scalar, field).hash.value)
    ensures exists form, t, u, n, m ::
              && IsNormalForm(lib, raw, t, n, Some(form)) && IsNormalForm(lib, term, u, m, Some(form))
              && t == (if field.Some? then field.value.valueType else scalar.valueType)
              && n == (if field.Some? then field.value.normalizer else None)
              && (valueType == None || valueType == Some(u))
  {
    var t, n := EffectiveType(scalar, field), if field.Some? then field.value.normalizer else None;
    var form := NormalizeValue(lib, Some(raw), t, n).value;
    NormalFormIs(lib, raw, t, n, Some(form));
    hide NormalizeValue, IsNormalForm;
    var u, m, other :|
      && IsNormalForm(lib, term, u, m, Some(other)) && PrepareScalar(lib, scalar, field).hash.value == lib.sha(other)
      && (valueType == Some(u) || (valueType == None && u != NullType && u != FileType))
      && (m == None || (u == PhoneType && m == Some("uz_phone_e164")));
    assert other == form;
  }

  // Partial search

  /** SQL's `text LIKE pattern ESCAPE '\'`. */
  predicate Like(pattern: string, text: string)
    decreases |pattern| + |text|
  {
    if pattern == "" then text == ""
    else if pattern[0] == '%' then Like(pattern[1..], text) || (text != "" && Like(pattern, text[1..]))
    else if pattern[0] == '_' then text != "" && Like(pattern[1..], text[1..])
    else if pattern[0] == '\\' then
      |pattern| > 1 && text != "" && text[0] == pattern[1] && Like(pattern[2..], text[1..])
    else text != "" && text[0] == pattern[0] && Like(pattern[1..], text[1..])
  }

  predicate IsSpecial(c: char) {
    c == '\\' || c == '%' || c == '_'
  }

  function EscapeLikePattern(s: string): string {
    if s == "" then ""
    else (if IsSpecial(s[0]) then ['\\', s[0]] else [s[0]]) + EscapeLikePattern(s[1..])
  }

  ghost predicate Contains(text: string, s: string) {
    exists i :: 0 <= i <= |text| && s <= text[i..]
  }

  /** An escaped term followed by `%` matches exactly the texts that start with the term. */
  lemma {:induction false} EscapedMatchesPrefix(s: string, text: string)
    ensures Like(EscapeLikePattern(s) + "%", text) <==> s <= text
    decreases |s|
  {
    var pattern := EscapeLikePattern(s) + "%";
    if s == "" {
      assert pattern == "%";
      PercentMatchesAll(text);
    } else {
      var tail := EscapeLikePattern(s[1..]) + "%";
      if IsSpecial(s[0]) {
        assert pattern[0] == '\\' && pattern[1] == s[0] && pattern[2..] == tail;
      } else {
        assert pattern[0] == s[0] && pattern[1..] == tail;
      }
      if text != "" {
        EscapedMatchesPrefix(s[1..], text[1..]);
        assert s <= text <==> s[0] == text[0] && s[1..] <= text[1..];
      }
    }
  }

  lemma {:induction false} PercentMatchesAll(text: string)
    ensures Like("%", text)
    decreases |text|
  {
    if text != "" {
      PercentMatchesAll(text[1..]);
    } else {
      assert "%"[1..] == "";
    }
  }

  /** A leading `%` lets the rest match from any position. */
  lemma {:induction false} PercentSkips(rest: string, text: string)
    ensures Like("%" + rest, text) <==> exists i :: 0 <= i <= |text| && Like(rest, text[i..])
    decreases |text|
  {
    var pattern := "%" + rest;
    assert pattern[0] == '%' && pattern[1..] == rest;
    assert text[0..] == text;
    if text != "" {
      PercentSkips(rest, text[1..]);
      forall i | 0 <= i <= |text[1..]|
        ensures text[1..][i..] == text[i + 1..]
      {
      }
      if i :| 0 <= i <= |text| && Like(rest, text[i..]) {
        if i > 0 {
          assert text[1..][i - 1..] == text[i..];
        }
      }
    }
  }

  /** The pattern built for a partial search matches a text exactly when the text contains the
      term, for every term, wildcards and backslashes included. */
  lemma PartialSearchIsSubstring(s: string, text: string)
    ensures Like("%" + EscapeLikePattern(s) + "%", text) <==> Contains(text, s)
  {
    assert "%" + EscapeLikePattern(s) + "%" == "%" + (EscapeLikePattern(s) + "%");
    PercentSkips(EscapeLikePattern(s) + "%", text);
    forall i | 0 <= i <= |text|
      ensures Like(EscapeLikePattern(s) + "%", text[i..]) <==> s <= text[i..]
    {
      EscapedMatchesPrefix(s, text[i..]);
    }
  }

  // The search of the index

  const PARTIAL_TYPES: seq<ValueType> := [StringType]

  /** A row of the index, as far as the search looks at it. */
  datatype IndexRow = IndexRow(table: string, path: string, valueType: ValueType, kept: Prepared)

  function PartialSearchValue(lib: Library, value: string, valueType: Option<ValueType>): Option<string> {
    if valueType.Some? && valueType.value !in PARTIAL_TYPES then None
    else
      var normalized := NormalizeValue(lib, Some(value), if valueType.Some? then valueType.value else TextType, None);
      if normalized == Some("") then None else normalized
  }

  /** The condition of the query: one of the hashes, or the pattern on a column of its types,
      and the table and path if they are given. */
  predicate Selects(hashes: set<string>, partial: Option<string>, table: Option<string>, path: Option<string>,
                    row: IndexRow) {
    && ((row.kept.hash.Some? && row.kept.hash.value in hashes)
        || (partial.Some? && row.valueType in PARTIAL_TYPES && row.kept.normalized.Some?
            && Like("%" + EscapeLikePattern(partial.value) + "%", row.kept.normalized.value)))
    && (table == None || table == Some(row.table))
    && (path == None || path == Some(row.path))
  }

  /** The rows found, before they are ordered and paged. */
  method SearchCurrentValues(lib: Library, rows: set<IndexRow>, value: string, valueType: Option<ValueType>,
                             table: Option<string>, path: Option<string>)
    returns (found: set<IndexRow>)
    ensures forall row :: row in found <==>
              && row in rows && table in {None, Some(row.table)} && path in {None, Some(row.path)}
              && (HashIsSearched(lib, value, valueType, row) || TextIsSearched(lib, value, valueType, row))
  {
    hide Like, NormalizeValue, IsSearched;
    var hashes := SearchHashes(lib, value, valueType);
    var partial := PartialSearchValue(lib, value, valueType);
    forall row
      ensures Selects(hashes, partial, table, path, row) <==>
              && table in {None, Some(row.table)} && path in {None, Some(row.path)}
              && (HashIsSearched(lib, value, valueType, row) || TextIsSearched(lib, value, valueType, row))
    {
      PartialIsTextSearch(lib, value, valueType, row);
    }
    if hashes == {} && partial == None {
      return {};
    }
    found := set row | row in rows && Selects(hashes, partial, table, path, row);
  }

  ghost predicate HashIsSearched(lib: Library, value: string, valueType: Option<ValueType>, row: IndexRow) {
    row.kept.hash.Some? && IsSearched(lib, value, valueType, row.kept.hash.value)
  }

  /** The term, trimmed and in lower case, is part of the row's normal form.  Only strings are
      searched so, and only when strings or no type are asked for. */
  ghost predicate TextIsSearched(lib: Library, value: string, valueType: Option<ValueType>, row: IndexRow) {
    && (valueType == None || valueType == Some(StringType)) && row.valueType == StringType
    && lib.trim(value) != "" && lib.lower(lib.trim(value)) != ""
    && row.kept.normalized.Some? && Contains(row.kept.normalized.value, lib.lower(lib.trim(value)))
  }

  lemma PartialIsTextSearch(lib: Library, value: string, valueType: Option<ValueType>, row: IndexRow)
    ensures var partial := PartialSearchValue(lib, value, valueType);
            TextIsSearched(lib, value, valueType, row) <==>
            && partial.Some? && row.valueType in PARTIAL_TYPES && row.kept.normalized.Some?
            && Like("%" + EscapeLikePattern(partial.value) + "%", row.kept.normalized.value)
  {
    var partial := PartialSearchValue(lib, value, valueType);
    hide Like, EscapeLikePattern, Contains;
    if partial.Some? && row.kept.normalized.Some? {
      PartialSearchIsSubstring(partial.value, row.kept.normalized.value);
    }
  }

  /** A string stored as it is, without a normal form or type of its own, is found by every part
      of it that is not blank, whatever its case. */
  lemma StringIsFoundByItsParts(lib: Library, text: string, term: string, row: IndexRow)
    requires row.valueType == StringType
    requires IsKept(lib, Scalar(StringType, Some(text), None, None, None, None), None, row.kept)
    requires lib.trim(text) != "" && lib.trim(term) != "" && lib.lower(lib.trim(term)) != ""
    requires Contains(lib.lower(lib.trim(text)), lib.lower(lib.trim(term)))
    ensures TextIsSearched(lib, term, None, row) && TextIsSearched(lib, term, Some(StringType), row)
  {
    hide Contains;
  }
}
