/** Types as the checker sees them. */
module Types {
  datatype NumberType = I8 | I16 | I32 | I64 | U8 | U16 | U32 | U64

  datatype Kind =
    | Unit
    | Bool
    | String
    | Number(number: NumberType)
    | Custom(name: string)
    | Array(element: TypeInfo, size: nat)
    | Generic(name: string)
    | Qualified(name: string)
    | Function(name: string)
    | Struct(name: string)
    | Enum(name: string)
    | Spec(name: string)

  datatype TypeInfo = TypeInfo(kind: Kind, typeParams: seq<string>) {
    predicate IsNumber() {
      kind.Number?
    }

    predicate IsBool() {
      kind.Bool?
    }

    predicate IsSignedInteger() {
      kind.Number? && (kind.number.I8? || kind.number.I16? || kind.number.I32? || kind.number.I64?)
    }
  }

  const UNIT := TypeInfo(Unit, [])
  const BOOLEAN := TypeInfo(Bool, [])
  const STRING := TypeInfo(String, [])
  const INT32 := TypeInfo(Number(I32), [])
}
