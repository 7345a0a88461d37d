/**
 * The generator's error values (pkg/colgen/generator.go:33-39): a sentinel kind,
 * which is what `errors.Is` tests, together with the formatted message.
 */
module Errors {
  import opened Strings

  datatype ErrorKind = UnknownLine | MissingArg | MissingType | MissingField | MissingEntity | Other

  datatype Error = Error(kind: ErrorKind, msg: string)

  /** The sentinel error of a kind, as declared with errors.New. */
  function Sentinel(kind: ErrorKind): Error
  {
    Error(kind, match kind
      case UnknownLine => "unknown line"
      case MissingArg => "missing arg"
      case MissingType => "missing type"
      case MissingField => "missing field"
      case MissingEntity => "missing main entity"
      case Other => "error")
  }

  /** fmt.Errorf("%w: <detail>", e): keeps the kind, appends the detail. */
  function Wrap(e: Error, detail: string): Error
  {
    Error(e.kind, e.msg + ": " + detail)
  }

  /** fmt.Errorf("%s: %w", strings.Join(msg, ","), e): keeps the kind, prepends the joined words. */
  function Prefix(msg: seq<string>, e: Error): Error
  {
    Error(e.kind, Join(msg, ',') + ": " + e.msg)
  }
}
