/** Member types: their names in struct definitions, sizes and alignments. */
module DataTypes {

  datatype MemberType =
    | Invalid | Boolean | Char | I8 | I16 | I32 | I64 | U8
    | U16 | U32 | U64 | Float | Double | Vec2 | Vec3 | Vec4
    | Vec2I32 | Vec3I32 | Vec4I32 | Vec2U32 | Vec3U32 | Vec4U32 | Vec2D | Vec3D
    | Vec4D | Vec2I64 | Vec3I64 | Vec4I64 | Vec2U64 | Vec3U64 | Vec4U64 | Mat2x2
    | Mat3x3 | Mat4x4 | Mat2x2I32 | Mat3x3I32 | Mat4x4I32 | Mat2x2D | Mat3x3D | Mat4x4D
    | Mat2x2I64 | Mat3x3I64 | Mat4x4I64 | Document | Ptr | Structure

  // ----- Names -----

  function ShortName(t: MemberType): (name: string)
    ensures 2 <= |name| <= 9
  {
    match t
    case I8 => "i8"
    case I16 => "i16"
    case I32 => "i32"
    case I64 => "i64"
    case U8 => "u8"
    case U16 => "u16"
    case U32 => "u32"
    case U64 => "u64"
    case Ptr => "ptr"
    case _ => "unknown"
  }

  function LongName(t: MemberType): (name: string)
    ensures 2 <= |name| <= 9
  {
    match t
    case Boolean => "bool"
    case Char => "char"
    case Float => "float"
    case Double => "double"
    case Document => "document"
    case Structure => "struct"
    case _ => "unknown"
  }

  function Vec2Name(t: MemberType): (name: string)
    ensures 2 <= |name| <= 9
  {
    match t
    case Vec2 => "vec2"
    case Vec2I32 => "vec2i32"
    case Vec2U32 => "vec2U32"
    case Vec2D => "vec2d"
    case Vec2I64 => "vec2i64"
    case Vec2U64 => "vec2U64"
    case _ => "unknown"
  }

  function Vec3Name(t: MemberType): (name: string)
    ensures 2 <= |name| <= 9
  {
    match t
    case Vec3 => "vec3"
    case Vec3I32 => "vec3i32"
    case Vec3U32 => "vec3U32"
    case Vec3D => "vec3d"
    case Vec3I64 => "vec3i64"
    case Vec3U64 => "vec3U64"
    case _ => "unknown"
  }

  function Vec4Name(t: MemberType): (name: string)
    ensures 2 <= |name| <= 9
  {
    match t
    case Vec4 => "vec4"
    case Vec4I32 => "vec4i32"
    case Vec4U32 => "vec4U32"
    case Vec4D => "vec4d"
    case Vec4I64 => "vec4i64"
    case Vec4U64 => "vec4U64"
    case _ => "unknown"
  }

  function Mat2Name(t: MemberType): (name: string)
    ensures 2 <= |name| <= 9
  {
    match t
    case Mat2x2 => "mat2x2"
    case Mat2x2I32 => "mat2x2i32"
    case Mat2x2D => "mat2x2d"
    case Mat2x2I64 => "mat2x2i64"
    case _ => "unknown"
  }

  function Mat3Name(t: MemberType): (name: string)
    ensures 2 <= |name| <= 9
  {
    match t
    case Mat3x3 => "mat3x3"
    case Mat3x3I32 => "mat3x3i32"
    case Mat3x3D => "mat3x3d"
    case Mat3x3I64 => "mat3x3i64"
    case _ => "unknown"
  }

  function Mat4Name(t: MemberType): (name: string)
    ensures 2 <= |name| <= 9
  {
    match t
    case Mat4x4 => "mat4x4"
    case Mat4x4I32 => "mat4x4i32"
    case Mat4x4D => "mat4x4d"
    case Mat4x4I64 => "mat4x4i64"
    case _ => "unknown"
  }

  /** data_packet_basic_type_type_to_string. */
  function TypeName(t: MemberType): string {
    match t
    case I8 | I16 | I32 | I64 | U8 | U16 | U32 | U64 | Ptr => ShortName(t)
    case Boolean | Char | Float | Double | Document | Structure | Invalid => LongName(t)
    case Vec2 | Vec2I32 | Vec2U32 | Vec2D | Vec2I64 | Vec2U64 => Vec2Name(t)
    case Vec3 | Vec3I32 | Vec3U32 | Vec3D | Vec3I64 | Vec3U64 => Vec3Name(t)
    case Vec4 | Vec4I32 | Vec4U32 | Vec4D | Vec4I64 | Vec4U64 => Vec4Name(t)
    case Mat2x2 | Mat2x2I32 | Mat2x2D | Mat2x2I64 => Mat2Name(t)
    case Mat3x3 | Mat3x3I32 | Mat3x3D | Mat3x3I64 => Mat3Name(t)
    case Mat4x4 | Mat4x4I32 | Mat4x4D | Mat4x4I64 => Mat4Name(t)
  }

  /** Equality of strings of at most nine characters, character by character. */
  predicate Same(s: string, t: string) {
    && |s| == |t|
    && (|t| > 0 ==> s[0] == t[0]) && (|t| > 1 ==> s[1] == t[1]) && (|t| > 2 ==> s[2] == t[2])
    && (|t| > 3 ==> s[3] == t[3]) && (|t| > 4 ==> s[4] == t[4]) && (|t| > 5 ==> s[5] == t[5])
    && (|t| > 6 ==> s[6] == t[6]) && (|t| > 7 ==> s[7] == t[7]) && (|t| > 8 ==> s[8] == t[8])
  }

  lemma SameIsEqual(s: string, t: string)
    requires |t| <= 9
    ensures Same(s, t) <==> s == t
  {
  }

  function Vec2Named(s: string): MemberType {
    if Same(s, "vec2") then Vec2
    else if Same(s, "vec2i32") then Vec2I32
    else if Same(s, "vec2u32") then Vec2I32
    else if Same(s, "vec2d") then Vec2D
    else if Same(s, "vec2i64") then Vec2I64
    else if Same(s, "vec2u64") then Vec2I64
    else Invalid
  }

  function Vec3Named(s: string): MemberType {
    if Same(s, "vec3") then Vec3
    else if Same(s, "vec3i32") then Vec3I32
    else if Same(s, "vec3u32") then Vec3I32
    else if Same(s, "vec3d") then Vec3D
    else if Same(s, "vec3i64") then Vec3I64
    else if Same(s, "vec3u64") then Vec3I64
    else Invalid
  }

  function Vec4Named(s: string): MemberType {
    if Same(s, "vec4") then Vec4
    else if Same(s, "vec4i32") then Vec4I32
    else if Same(s, "vec4u32") then Vec4I32
    else if Same(s, "vec4d") then Vec4D
    else if Same(s, "vec4i64") then Vec4I64
    else if Same(s, "vec4u64") then Vec4I64
    else Invalid
  }

  function Mat2Named(s: string): MemberType {
    if Same(s, "mat2x2") then Mat2x2
    else if Same(s, "mat2x2i32") then Mat2x2I32
    else if Same(s, "mat2x2d") then Mat2x2D
    else if Same(s, "mat2x2i64") then Mat2x2I64
    else Invalid
  }

  function Mat3Named(s: string): MemberType {
    if Same(s, "mat3x3") then Mat3x3
    else if Same(s, "mat3x3i32") then Mat3x3I32
    else if Same(s, "mat3x3d") then Mat3x3D
    else if Same(s, "mat3x3i64") then Mat3x3I64
    else Invalid
  }

  function Mat4Named(s: string): MemberType {
    if Same(s, "mat4x4") then Mat4x4
    else if Same(s, "mat4x4i32") then Mat4x4I32
    else if Same(s, "mat4x4d") then Mat4x4D
    else if Same(s, "mat4x4i64") then Mat4x4I64
    else Invalid
  }

  function ShortNamed(s: string): MemberType {
    if Same(s, "i8") then I8
    else if Same(s, "i16") then I16
    else if Same(s, "i32") then I32
    else if Same(s, "i64") then I64
    else if Same(s, "u8") then U8
    else if Same(s, "u16") then U16
    else if Same(s, "u32") then U32
    else if Same(s, "u64") then U64
    else if Same(s, "ptr") then Ptr
    else Invalid
  }

  function LongNamed(s: string): MemberType {
    if Same(s, "bool") then Boolean
    else if Same(s, "char") then Char
    else if Same(s, "float") then Float
    else if Same(s, "double") then Double
    else if Same(s, "document") then Document
    else if Same(s, "struct") then Structure
    else Invalid
  }

  /**
   data_packet_basic_type_string_to_type, as a table split by the first letter and the dimension. The unsigned vector
   names stand for signed types.
   */
  function TypeNamed(s: string): MemberType {
    if |s| <= 3 then ShortNamed(s)
    else if s[0] == 'v' then
      if s[3] == '2' then Vec2Named(s) else if s[3] == '3' then Vec3Named(s) else Vec4Named(s)
    else if s[0] == 'm' then
      if s[3] == '2' then Mat2Named(s) else if s[3] == '3' then Mat3Named(s) else Mat4Named(s)
    else LongNamed(s)
  }

  /** The types whose printed name is not read back. */
  predicate UnsignedVector(t: MemberType) {
    t == Vec2U32 || t == Vec3U32 || t == Vec4U32 || t == Vec2U64 || t == Vec3U64 || t == Vec4U64
  }

  /** Reading the printed name gives the type back. */
  predicate ReadBack(t: MemberType) { TypeNamed(TypeName(t)) == t }

  lemma ShortNames(t: MemberType)
    requires t == I8 || t == I16 || t == I32 || t == I64 || t == U8 || t == U16 || t == U32 || t == U64 || t == Ptr
    ensures ReadBack(t)
  {
    hide LongNamed, Vec2Named, Vec3Named, Vec4Named, Mat2Named, Mat3Named, Mat4Named, LongName, Vec2Name, Vec3Name,
      Vec4Name, Mat2Name, Mat3Name, Mat4Name;
  }

  lemma LongNames(t: MemberType)
    requires t == Boolean || t == Char || t == Float || t == Double || t == Document || t == Structure || t == Invalid
    ensures ReadBack(t)
  {
    hide ShortNamed, Vec2Named, Vec3Named, Vec4Named, Mat2Named, Mat3Named, Mat4Named, ShortName, Vec2Name, Vec3Name,
      Vec4Name, Mat2Name, Mat3Name, Mat4Name;
  }

  lemma Vec2Names(t: MemberType)
    requires t == Vec2 || t == Vec2I32 || t == Vec2D || t == Vec2I64
    ensures ReadBack(t)
  {
    hide ShortNamed, LongNamed, Vec3Named, Vec4Named, Mat2Named, Mat3Named, Mat4Named, ShortName, LongName, Vec3Name,
      Vec4Name, Mat2Name, Mat3Name, Mat4Name;
  }

  lemma UnsignedVec2Names()
    ensures !ReadBack(Vec2U32) && !ReadBack(Vec2U64)
  {
    hide ShortNamed, LongNamed, Vec3Named, Vec4Named, Mat2Named, Mat3Named, Mat4Named, ShortName, LongName, Vec3Name,
      Vec4Name, Mat2Name, Mat3Name, Mat4Name;
  }

  lemma Vec3Names(t: MemberType)
    requires t == Vec3 || t == Vec3I32 || t == Vec3D || t == Vec3I64
    ensures ReadBack(t)
  {
    hide ShortNamed, LongNamed, Vec2Named, Vec4Named, Mat2Named, Mat3Named, Mat4Named, ShortName, LongName, Vec2Name,
      Vec4Name, Mat2Name, Mat3Name, Mat4Name;
  }

  lemma UnsignedVec3Names()
    ensures !ReadBack(Vec3U32) && !ReadBack(Vec3U64)
  {
    hide ShortNamed, LongNamed, Vec2Named, Vec4Named, Mat2Named, Mat3Named, Mat4Named, ShortName, LongName, Vec2Name,
      Vec4Name, Mat2Name, Mat3Name, Mat4Name;
  }

  lemma Vec4Names(t: MemberType)
    requires t == Vec4 || t == Vec4I32 || t == Vec4D || t == Vec4I64
    ensures ReadBack(t)
  {
    hide ShortNamed, LongNamed, Vec2Named, Vec3Named, Mat2Named, Mat3Named, Mat4Named, ShortName, LongName, Vec2Name,
      Vec3Name, Mat2Name, Mat3Name, Mat4Name;
  }

  lemma UnsignedVec4Names()
    ensures !ReadBack(Vec4U32) && !ReadBack(Vec4U64)
  {
    hide ShortNamed, LongNamed, Vec2Named, Vec3Named, Mat2Named, Mat3Named, Mat4Named, ShortName, LongName, Vec2Name,
      Vec3Name, Mat2Name, Mat3Name, Mat4Name;
  }

  lemma Mat2Names(t: MemberType)
    requires t == Mat2x2 || t == Mat2x2I32 || t == Mat2x2D || t == Mat2x2I64
    ensures ReadBack(t)
  {
    hide ShortNamed, LongNamed, Vec2Named, Vec3Named, Vec4Named, Mat3Named, Mat4Named, ShortName, LongName, Vec2Name,
      Vec3Name, Vec4Name, Mat3Name, Mat4Name;
  }

  lemma Mat3Names(t: MemberType)
    requires t == Mat3x3 || t == Mat3x3I32 || t == Mat3x3D || t == Mat3x3I64
    ensures ReadBack(t)
  {
    hide ShortNamed, LongNamed, Vec2Named, Vec3Named, Vec4Named, Mat2Named, Mat4Named, ShortName, LongName, Vec2Name,
      Vec3Name, Vec4Name, Mat2Name, Mat4Name;
  }

  lemma Mat4Names(t: MemberType)
    requires t == Mat4x4 || t == Mat4x4I32 || t == Mat4x4D || t == Mat4x4I64
    ensures ReadBack(t)
  {
    hide ShortNamed, LongNamed, Vec2Named, Vec3Named, Vec4Named, Mat2Named, Mat3Named, ShortName, LongName, Vec2Name,
      Vec3Name, Vec4Name, Mat2Name, Mat3Name;
  }

  /** A printed name is read back, except for the unsigned vectors. */
  lemma NameRoundTrip(t: MemberType)
    ensures ReadBack(t) <==> !UnsignedVector(t)
  {
    hide ReadBack;
    match t
    case I8 | I16 | I32 | I64 | U8 | U16 | U32 | U64 | Ptr => ShortNames(t);
    case Boolean | Char | Float | Double | Document | Structure | Invalid => LongNames(t);
    case Vec2 | Vec2I32 | Vec2D | Vec2I64 => Vec2Names(t);
    case Vec2U32 | Vec2U64 => UnsignedVec2Names();
    case Vec3 | Vec3I32 | Vec3D | Vec3I64 => Vec3Names(t);
    case Vec3U32 | Vec3U64 => UnsignedVec3Names();
    case Vec4 | Vec4I32 | Vec4D | Vec4I64 => Vec4Names(t);
    case Vec4U32 | Vec4U64 => UnsignedVec4Names();
    case Mat2x2 | Mat2x2I32 | Mat2x2D | Mat2x2I64 => Mat2Names(t);
    case Mat3x3 | Mat3x3I32 | Mat3x3D | Mat3x3I64 => Mat3Names(t);
    case Mat4x4 | Mat4x4I32 | Mat4x4D | Mat4x4I64 => Mat4Names(t);
  }

  /** Only a type's printed name is read as that type, but for the lower-case names of the unsigned vectors. */
  predicate Spells(s: string, t: MemberType) {
    (s == TypeName(t) && !UnsignedVector(t))
    || (s == "vec2u32" && t == Vec2I32) || (s == "vec3u32" && t == Vec3I32) || (s == "vec4u32" && t == Vec4I32)
    || (s == "vec2u64" && t == Vec2I64) || (s == "vec3u64" && t == Vec3I64) || (s == "vec4u64" && t == Vec4I64)
  }

  lemma NamesShort(t: MemberType)
    ensures |TypeName(t)| <= 9
  {
    hide ShortName, LongName, Vec2Name, Vec3Name, Vec4Name, Mat2Name, Mat3Name, Mat4Name;
  }

  lemma PrintedSpells(s: string, t: MemberType)
    requires Same(s, TypeName(t)) && !UnsignedVector(t)
    ensures Spells(s, t)
  {
    hide TypeName, Same;
    NamesShort(t);
    SameIsEqual(s, TypeName(t));
  }

  lemma Vec2Exact(s: string)
    requires Vec2Named(s) != Invalid
    ensures Spells(s, Vec2Named(s))
  {
    hide ShortName, LongName, Vec3Name, Vec4Name, Mat2Name, Mat3Name, Mat4Name;
    SameIsEqual(s, "vec2");
    SameIsEqual(s, "vec2i32");
    SameIsEqual(s, "vec2u32");
    SameIsEqual(s, "vec2d");
    SameIsEqual(s, "vec2i64");
    SameIsEqual(s, "vec2u64");
  }

  lemma Vec3Exact(s: string)
    requires Vec3Named(s) != Invalid
    ensures Spells(s, Vec3Named(s))
  {
    hide ShortName, LongName, Vec2Name, Vec4Name, Mat2Name, Mat3Name, Mat4Name;
    SameIsEqual(s, "vec3");
    SameIsEqual(s, "vec3i32");
    SameIsEqual(s, "vec3u32");
    SameIsEqual(s, "vec3d");
    SameIsEqual(s, "vec3i64");
    SameIsEqual(s, "vec3u64");
  }

  lemma Vec4Exact(s: string)
    requires Vec4Named(s) != Invalid
    ensures Spells(s, Vec4Named(s))
  {
    hide ShortName, LongName, Vec2Name, Vec3Name, Mat2Name, Mat3Name, Mat4Name;
    SameIsEqual(s, "vec4");
    SameIsEqual(s, "vec4i32");
    SameIsEqual(s, "vec4u32");
    SameIsEqual(s, "vec4d");
    SameIsEqual(s, "vec4i64");
    SameIsEqual(s, "vec4u64");
  }

  lemma Mat2Exact(s: string)
    requires Mat2Named(s) != Invalid
    ensures Spells(s, Mat2Named(s))
  {
    hide Spells, Same, ShortName, LongName, Vec2Name, Vec3Name, Vec4Name, Mat3Name, Mat4Name;
    PrintedSpells(s, Mat2Named(s));
  }

  lemma Mat3Exact(s: string)
    requires Mat3Named(s) != Invalid
    ensures Spells(s, Mat3Named(s))
  {
    hide Spells, Same, ShortName, LongName, Vec2Name, Vec3Name, Vec4Name, Mat2Name, Mat4Name;
    PrintedSpells(s, Mat3Named(s));
  }

  lemma Mat4Exact(s: string)
    requires Mat4Named(s) != Invalid
    ensures Spells(s, Mat4Named(s))
  {
    hide Spells, Same, ShortName, LongName, Vec2Name, Vec3Name, Vec4Name, Mat2Name, Mat3Name;
    PrintedSpells(s, Mat4Named(s));
  }

  lemma ShortExact(s: string)
    requires ShortNamed(s) != Invalid
    ensures Spells(s, ShortNamed(s))
  {
    hide Spells, Same, LongName, Vec2Name, Vec3Name, Vec4Name, Mat2Name, Mat3Name, Mat4Name;
    PrintedSpells(s, ShortNamed(s));
  }

  lemma LongExact(s: string)
    requires LongNamed(s) != Invalid
    ensures Spells(s, LongNamed(s))
  {
    hide Spells, Same, ShortName, Vec2Name, Vec3Name, Vec4Name, Mat2Name, Mat3Name, Mat4Name;
    PrintedSpells(s, LongNamed(s));
  }

  lemma NameExact(s: string)
    requires TypeNamed(s) != Invalid
    ensures Spells(s, TypeNamed(s))
  {
    hide Spells, ShortNamed, Vec2Named, Vec3Named, Vec4Named, Mat2Named, Mat3Named, Mat4Named, LongNamed;
    if |s| <= 3 {
      ShortExact(s);
    } else if s[0] == 'v' {
      if s[3] == '2' { Vec2Exact(s); } else if s[3] == '3' { Vec3Exact(s); } else { Vec4Exact(s); }
    } else if s[0] == 'm' {
      if s[3] == '2' { Mat2Exact(s); } else if s[3] == '3' { Mat3Exact(s); } else { Mat4Exact(s); }
    } else {
      LongExact(s);
    }
  }

  lemma Alias2()
    ensures TypeNamed("vec2u32") == Vec2I32 && TypeNamed("vec2u64") == Vec2I64
  {
    hide ShortNamed, Vec3Named, Vec4Named, Mat2Named, Mat3Named, Mat4Named, LongNamed, ShortName, LongName, Vec3Name,
      Vec4Name, Mat2Name, Mat3Name, Mat4Name;
  }

  lemma Alias3()
    ensures TypeNamed("vec3u32") == Vec3I32 && TypeNamed("vec3u64") == Vec3I64
  {
    hide ShortNamed, Vec2Named, Vec4Named, Mat2Named, Mat3Named, Mat4Named, LongNamed, ShortName, LongName, Vec2Name,
      Vec4Name, Mat2Name, Mat3Name, Mat4Name;
  }

  lemma Alias4()
    ensures TypeNamed("vec4u32") == Vec4I32 && TypeNamed("vec4u64") == Vec4I64
  {
    hide ShortNamed, Vec2Named, Vec3Named, Mat2Named, Mat3Named, Mat4Named, LongNamed, ShortName, LongName, Vec2Name,
      Vec3Name, Mat2Name, Mat3Name, Mat4Name;
  }

  /** Exactly these names are read as a type. */
  lemma NameIff(s: string, t: MemberType)
    requires t != Invalid
    ensures TypeNamed(s) == t <==> Spells(s, t)
  {
    hide TypeNamed, TypeName;
    NameRoundTrip(t);
    Alias2();
    Alias3();
    Alias4();
    if TypeNamed(s) == t {
      NameExact(s);
    }
  }

  // ----- Alignments and sizes in bytes -----

  /** data_packet_basic_type_aligned. */
  function BasicAlign(t: MemberType): nat {
    match t
    case Boolean | Char | I8 | U8 => 1
    case I16 | U16 => 2
    case I32 | U32 | Float => 4
    case I64 | U64 | Double | Document | Ptr => 8
    case Vec2 | Vec2I32 | Vec2U32 => 8
    case Vec3 | Vec3I32 | Vec3U32 | Vec4 | Vec4I32 | Vec4U32 => 16
    case Mat2x2 | Mat2x2I32 | Mat3x3 | Mat3x3I32 | Mat4x4 | Mat4x4I32 => 16
    case Vec2D | Vec2I64 | Vec2U64 => 16
    case Vec3D | Vec3I64 | Vec3U64 | Vec4D | Vec4I64 | Vec4U64 => 32
    case Mat2x2D | Mat2x2I64 | Mat3x3D | Mat3x3I64 | Mat4x4D | Mat4x4I64 => 32
    case Structure | Invalid => 0
  }

  /** data_packet_basic_type_size_eval_aligned. */
  function BasicSize(t: MemberType): nat {
    match t
    case Boolean | Char | I8 | U8 => 1
    case I16 | U16 => 2
    case I32 | U32 | Float => 4
    case I64 | U64 | Double | Document | Ptr => 8
    case Vec2 | Vec2I32 | Vec2U32 => 8
    case Vec3 | Vec3I32 | Vec3U32 => 12
    case Vec4 | Vec4I32 | Vec4U32 | Mat2x2 | Mat2x2I32 => 16
    case Mat3x3 | Mat3x3I32 => 48
    case Mat4x4 | Mat4x4I32 => 64
    case Vec2D | Vec2I64 => 16
    case Vec3D | Vec3I64 | Vec4D | Vec4I64 => 32
    case Mat2x2D | Mat2x2I64 | Vec2U64 => 32
    case Mat3x3D | Mat3x3I64 | Vec3U64 => 96
    case Mat4x4D | Mat4x4I64 | Vec4U64 => 128
    case Structure | Invalid => 0
  }

  // ----- What the names say -----

  /** A scalar of some bytes, a vector of n, or a matrix of n columns of n. */
  datatype Shape = Scalar(bytes: nat) | Vector(n: nat, bytes: nat) | Matrix(n: nat, bytes: nat)

  function Digit(c: char): nat {
    if '0' <= c <= '9' then c as nat - '0' as nat else 0
  }

  /** The number of bits at the end of a name, in bytes. */
  function BytesAtEnd(name: string): nat
    requires |name| >= 2
  {
    (10 * Digit(name[|name| - 2]) + Digit(name[|name| - 1])) / 8
  }

  /** The scalars of a vector or matrix: floats without a suffix, doubles with a d, else integers of the bits that it names. */
  function BytesOfSuffix(suffix: string): nat {
    if suffix == "" then 4 else if |suffix| == 1 then 8 else BytesAtEnd(suffix)
  }

  /** What the name of a basic type says of its shape. */
  function ShapeOf(name: string): Shape
    requires |name| >= 2
  {
    if |name| >= 6 && name[0] == 'm' then Matrix(Digit(name[3]), BytesOfSuffix(name[6..]))
    else if |name| >= 4 && name[0] == 'v' then Vector(Digit(name[3]), BytesOfSuffix(name[4..]))
    else if name == "bool" || name == "char" then Scalar(1)
    else if name == "float" then Scalar(4)
    else if name == "double" || name == "document" || name == "ptr" then Scalar(8)
    else Scalar(BytesAtEnd(name))
  }

  /** Three elements are placed as four. */
  function Padded(n: nat): nat { if n == 3 then 4 else n }

  /**
   Alignment and size follow from the shape: a scalar at its size, a vector at its padded size, a matrix at four elements.
   But vectors of three 4-byte scalars are not padded, and unsigned 64-bit vectors are given the sizes of matrices.
   */
  predicate FollowsName(t: MemberType) {
    |TypeName(t)| >= 2 && match ShapeOf(TypeName(t))
    case Scalar(bytes) => BasicAlign(t) == BasicSize(t) == bytes > 0
    case Vector(n, bytes) =>
      && 2 <= n <= 4 && BasicAlign(t) == Padded(n) * bytes
      && BasicSize(t) == if t == Vec2U64 || t == Vec3U64 || t == Vec4U64 then Padded(n) * n * bytes
                         else if bytes == 4 then n * bytes else Padded(n) * bytes
    case Matrix(n, bytes) => 2 <= n <= 4 && BasicAlign(t) == 4 * bytes && BasicSize(t) == Padded(n) * n * bytes
  }

  lemma SignedSizes(t: MemberType)
    requires t == I8 || t == I16 || t == I32 || t == I64
    ensures FollowsName(t)
  {
    hide LongName, Vec2Name, Vec3Name, Vec4Name, Mat2Name, Mat3Name, Mat4Name;
  }

  lemma UnsignedSizes(t: MemberType)
    requires t == U8 || t == U16 || t == U32 || t == U64 || t == Ptr
    ensures FollowsName(t)
  {
    hide LongName, Vec2Name, Vec3Name, Vec4Name, Mat2Name, Mat3Name, Mat4Name;
  }

  lemma LongSizes(t: MemberType)
    requires t == Boolean || t == Char || t == Float || t == Double || t == Document
    ensures FollowsName(t)
  {
    hide ShortName, Vec2Name, Vec3Name, Vec4Name, Mat2Name, Mat3Name, Mat4Name;
  }

  lemma Vec2Sizes(t: MemberType)
    requires t == Vec2 || t == Vec2I32 || t == Vec2U32
    ensures FollowsName(t)
  {
    hide ShortName, LongName, Vec3Name, Vec4Name, Mat2Name, Mat3Name, Mat4Name;
  }

  lemma WideVec2Sizes(t: MemberType)
    requires t == Vec2D || t == Vec2I64 || t == Vec2U64
    ensures FollowsName(t)
  {
    hide ShortName, LongName, Vec3Name, Vec4Name, Mat2Name, Mat3Name, Mat4Name;
  }

  lemma Vec3Sizes(t: MemberType)
    requires t == Vec3 || t == Vec3I32 || t == Vec3U32
    ensures FollowsName(t)
  {
    hide ShortName, LongName, Vec2Name, Vec4Name, Mat2Name, Mat3Name, Mat4Name;
  }

  lemma WideVec3Sizes(t: MemberType)
    requires t == Vec3D || t == Vec3I64 || t == Vec3U64
    ensures FollowsName(t)
  {
    hide ShortName, LongName, Vec2Name, Vec4Name, Mat2Name, Mat3Name, Mat4Name;
  }

  lemma Vec4Sizes(t: MemberType)
    requires t == Vec4 || t == Vec4I32 || t == Vec4U32
    ensures FollowsName(t)
  {
    hide ShortName, LongName, Vec2Name, Vec3Name, Mat2Name, Mat3Name, Mat4Name;
  }

  lemma WideVec4Sizes(t: MemberType)
    requires t == Vec4D || t == Vec4I64 || t == Vec4U64
    ensures FollowsName(t)
  {
    hide ShortName, LongName, Vec2Name, Vec3Name, Mat2Name, Mat3Name, Mat4Name;
  }

  lemma Mat2Sizes(t: MemberType)
    requires t == Mat2x2 || t == Mat2x2I32 || t == Mat2x2D || t == Mat2x2I64
    ensures FollowsName(t)
  {
    hide ShortName, LongName, Vec2Name, Vec3Name, Vec4Name, Mat3Name, Mat4Name;
  }

  lemma Mat3Sizes(t: MemberType)
    requires t == Mat3x3 || t == Mat3x3I32 || t == Mat3x3D || t == Mat3x3I64
    ensures FollowsName(t)
  {
    hide ShortName, LongName, Vec2Name, Vec3Name, Vec4Name, Mat2Name, Mat4Name;
  }

  lemma Mat4Sizes(t: MemberType)
    requires t == Mat4x4 || t == Mat4x4I32 || t == Mat4x4D || t == Mat4x4I64
    ensures FollowsName(t)
  {
    hide ShortName, LongName, Vec2Name, Vec3Name, Vec4Name, Mat2Name, Mat3Name;
  }

  /** For every basic type. */
  lemma SizesFollowNames(t: MemberType)
    requires t != Invalid && t != Structure
    ensures FollowsName(t)
  {
    hide FollowsName;
    match t
    case I8 | I16 | I32 | I64 => SignedSizes(t);
    case U8 | U16 | U32 | U64 | Ptr => UnsignedSizes(t);
    case Boolean | Char | Float | Double | Document => LongSizes(t);
    case Vec2 | Vec2I32 | Vec2U32 => Vec2Sizes(t);
    case Vec2D | Vec2I64 | Vec2U64 => WideVec2Sizes(t);
    case Vec3 | Vec3I32 | Vec3U32 => Vec3Sizes(t);
    case Vec3D | Vec3I64 | Vec3U64 => WideVec3Sizes(t);
    case Vec4 | Vec4I32 | Vec4U32 => Vec4Sizes(t);
    case Vec4D | Vec4I64 | Vec4U64 => WideVec4Sizes(t);
    case Mat2x2 | Mat2x2I32 | Mat2x2D | Mat2x2I64 => Mat2Sizes(t);
    case Mat3x3 | Mat3x3I32 | Mat3x3D | Mat3x3I64 => Mat3Sizes(t);
    case Mat4x4 | Mat4x4I32 | Mat4x4D | Mat4x4I64 => Mat4Sizes(t);
  }
}
