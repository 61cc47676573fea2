/** The owned document tree of toml++: tables, arrays and typed scalar values.

    Ownership (`std::unique_ptr` children, deep copy on copy, transfer on
    move) becomes value semantics: a `Node` is an immutable tree and copying
    it is the identity. */
module Nodes {
  import opened Options

  /** `node_type`: the ten type tags, `NoneType` being the "no type"
      sentinel that never labels a live node. */
  datatype NodeType =
    | NoneType
    | TableType
    | ArrayType
    | StringType
    | IntegerType
    | FloatType
    | BooleanType
    | DateType
    | TimeType
    | DateTimeType

  /** `toml::date`: year, month and day as unsigned fields. */
  datatype Date = Date(year: nat, month: nat, day: nat)

  /** `toml::time`: hour, minute, second and a nanosecond count. */
  datatype Time = Time(hour: nat, minute: nat, second: nat, nanosecond: nat)

  /** `toml::time_offset`: a signed offset from UTC in minutes. */
  datatype TimeOffset = TimeOffset(minutes: int)

  /** The classification `impl::fpclassify` gives a double. */
  datatype FpClass = Finite | PosInf | NegInf | NaN

  /** A double kept opaque: its class, its value when finite, the text the
      platform's shortest round-trip conversion produces in decimal and in
      hexadecimal-float form, and the column estimate the width heuristic
      derives from `log10`. None of these is computed here. */
  datatype Float = Float(cls: FpClass, value: real, decimalText: string, hexText: string, columns: nat)

  /** A node of the tree. `flags` is the raw `value_flags` bit set that
      integers and floats carry for formatting. */
  datatype Node =
    | Table(entries: seq<(string, Node)>, inline: bool)
    | Array(elems: seq<Node>)
    | Str(text: string)
    | Int(value: int, flags: nat)
    | Flt(fp: Float, flags: nat)
    | Bool(truth: bool)
    | DateNode(date: Date)
    | TimeNode(time: Time)
    | DateTimeNode(date: Date, time: Time, offset: Option<TimeOffset>)
  {
    /** `node::type()`: the tag of a live node, never `NoneType`. */
    function Type(): (t: NodeType)
      ensures t != NoneType
      ensures t == TableType <==> this.Table?
      ensures t == ArrayType <==> this.Array?
    {
      match this
      case Table(_, _) => TableType
      case Array(_) => ArrayType
      case Str(_) => StringType
      case Int(_, _) => IntegerType
      case Flt(_, _) => FloatType
      case Bool(_) => BooleanType
      case DateNode(_) => DateType
      case TimeNode(_) => TimeType
      case DateTimeNode(_, _, _) => DateTimeType
    }
  }
}
