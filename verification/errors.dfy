/** The three error kinds of the engine (crates/feta/src/error.rs). Messages are
    not modelled; only the kind is observable here. */
module Errors {

  datatype FetaError =
    /** A malformed or inconsistent feature definition, found at build time. */
    | Configuration
    /** The caller asked for something that does not exist (an unknown feature). */
    | Request
    /** An audience expression failed to compile or to evaluate. */
    | Targeting
}
