/** The request fields whose bean-validation failures have their own error code. */
module ValidationFields {

  datatype ValidationField = LatitudeField | LongitudeField | ContentField | UnknownField(fieldName: string)
  {
    function Name(): string {
      match this
      case LatitudeField => "latitude"
      case LongitudeField => "longitude"
      case ContentField => "content"
      case UnknownField(n) => n
    }
  }

  /** `ValidationField.from`: the three known names select their field, any
      other name is kept as an unknown field. */
  function From(fieldName: string): (f: ValidationField)
    ensures f.Name() == fieldName
    ensures f.UnknownField? <==> fieldName !in {"latitude", "longitude", "content"}
  {
    match fieldName
    case "latitude" => LatitudeField
    case "longitude" => LongitudeField
    case "content" => ContentField
    case _ => UnknownField(fieldName)
  }

  /** Naming a field and looking the name up again gives the same field back,
      for an unknown field too unless its name is one of the three. */
  lemma FromNameRoundTrip(f: ValidationField)
    requires f.UnknownField? ==> f.fieldName !in {"latitude", "longitude", "content"}
    ensures From(f.Name()) == f
  {
  }
}
