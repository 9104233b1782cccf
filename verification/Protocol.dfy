/** The protocol records the rename, reference and signature requests exchange. */
module Protocol {
  datatype Position = Position(line: int, character: int)

  datatype Range = Range(start: Position, end: Position)

  datatype TextEdit = TextEdit(range: Range, newText: string)

  datatype Location = Location(uri: string, range: Range)

  datatype Result<+T> = Ok(value: T) | Err(message: string)
}
