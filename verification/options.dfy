/** The optional value used wherever the modelled code can yield "nothing":
    a URI the parser rejects, a lexical form outside a datatype's lexical
    space, an environment variable that is not set. */
module Options {

  datatype Option<+T> = None | Some(value: T)
}
