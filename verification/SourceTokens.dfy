/** Interned ids, and the tokens of the source. */
module SourceTokens {
  import opened Options
  import opened MachineIntegers

  type SymbolId(==, !new)
  type VarId(==, !new)
  type PathId(==, !new)
  type TextId(==, !new)

  /** Where a token comes from. */
  datatype TokenSource = File(path: PathId, text: TextId) | Builtin | External | Generated(path: PathId) {
    function GetPath(): Option<PathId> {
      match this
      case File(path, _) => Some(path)
      case Generated(path) => Some(path)
      case _ => None
    }
  }

  datatype Token = Token(line: u32, column: u32, length: u32, pos: u32, source: TokenSource)
}
