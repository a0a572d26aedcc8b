/** `CompilerFactory.create`: the output format name selects the compiler; the compilers'
    serialisation is outside the model. */
module CompilerFactory {
  import opened Wrappers

  /** `CompilerOptions`, passed through untouched. */
  datatype CompilerOptions = CompilerOptions(indentation: Option<string>, poSourceLocation: Option<bool>)

  datatype Compiler =
    | PoCompiler(options: Option<CompilerOptions>)
    | JsonCompiler(options: Option<CompilerOptions>)
    | NamespacedJsonCompiler(options: Option<CompilerOptions>)

  /** The format name that selects each compiler. */
  function Format(c: Compiler): string {
    match c
    case PoCompiler(_) => "pot"
    case JsonCompiler(_) => "json"
    case NamespacedJsonCompiler(_) => "namespaced-json"
  }

  /** The `extension` field of each compiler. */
  function Extension(c: Compiler): (r: string)
    ensures r == "po" <==> c.PoCompiler?
    ensures r == "json" <==> !c.PoCompiler?
  {
    match c
    case PoCompiler(_) => "po"
    case JsonCompiler(_) => "json"
    case NamespacedJsonCompiler(_) => "json"
  }

  /** `create(format, options)`: one of the three compilers, built with the options given,
      or the error `Unknown format: <format>`. */
  function Create(format: string, options: Option<CompilerOptions>): (r: Result<Compiler>)
    ensures r.Ok? <==> format in ["pot", "json", "namespaced-json"]
    ensures r.Ok? ==> Format(r.value) == format && r.value.options == options
    ensures r.Err? ==> r.message == "Unknown format: " + format
  {
    match format
    case "pot" => Ok(PoCompiler(options))
    case "json" => Ok(JsonCompiler(options))
    case "namespaced-json" => Ok(NamespacedJsonCompiler(options))
    case _ => Err("Unknown format: " + format)
  }

  /** Every compiler is built from its own format name and options. */
  lemma CreateFormat(c: Compiler)
    ensures Create(Format(c), c.options) == Ok(c)
  {
  }
}
