/** The policy table of execution frames (src/exec_frame_policy.h): for each
    kind of frame, how each resource is obtained on entry. */
module FramePolicy {

  datatype Kind =
    | TopLevel | Subshell | BraceGroup | Function | Loop | Trap
    | BackgroundJob | Pipeline | PipelineCmd | DotScript | Eval

  datatype Scope = Own | Copy | Share

  /** The nine scoped resources, and the two a frame has of its own or not at all. */
  datatype Slot =
    | Variables | Positional | Fds | Traps | Options | Cwd | Umask | Functions | Aliases
    | Locals | SourceName

  datatype Policy = Policy(
    variables: Scope, positional: Scope, fds: Scope, traps: Scope, options: Scope,
    cwd: Scope, umask: Scope, functions: Scope, aliases: Scope,
    hasLocals: bool, canOverride: bool, setsArg0: bool, resetsTraps: bool,
    isLoop: bool, affectsParentStatus: bool, tracksLocation: bool)

  function PolicyOf(kind: Kind): Policy {
    match kind
    case TopLevel =>
      Policy(Own, Own, Own, Own, Own, Own, Own, Own, Own,
             false, false, false, false, false, false, true)
    case Subshell =>
      Policy(Copy, Copy, Copy, Copy, Copy, Copy, Copy, Copy, Copy,
             false, false, false, true, false, true, true)
    case BraceGroup =>
      Policy(Share, Share, Share, Share, Share, Share, Share, Share, Share,
             false, false, false, false, false, true, false)
    case Function =>
      Policy(Share, Own, Share, Share, Share, Share, Share, Share, Share,
             true, false, false, false, false, true, true)
    case Loop =>
      Policy(Share, Share, Share, Share, Share, Share, Share, Share, Share,
             false, false, false, false, true, true, false)
    case Trap =>
      Policy(Share, Share, Share, Share, Share, Share, Share, Share, Share,
             false, false, false, false, false, false, false)
    case BackgroundJob =>
      Policy(Copy, Copy, Copy, Copy, Copy, Copy, Copy, Copy, Copy,
             false, false, false, true, false, false, true)
    case Pipeline =>
      Policy(Share, Share, Share, Share, Share, Share, Share, Share, Share,
             false, false, false, false, false, true, false)
    case PipelineCmd =>
      Policy(Copy, Copy, Copy, Copy, Copy, Copy, Copy, Copy, Copy,
             false, false, false, true, false, true, true)
    case DotScript =>
      Policy(Share, Share, Share, Share, Share, Share, Share, Share, Share,
             false, true, true, false, false, true, true)
    case Eval =>
      Policy(Share, Share, Share, Share, Share, Share, Share, Share, Share,
             false, false, false, false, false, true, true)
  }

  function ScopeOf(kind: Kind, s: Slot): Scope {
    var p := PolicyOf(kind);
    match s
    case Variables => p.variables
    case Positional => p.positional
    case Fds => p.fds
    case Traps => p.traps
    case Options => p.options
    case Cwd => p.cwd
    case Umask => p.umask
    case Functions => p.functions
    case Aliases => p.aliases
    case Locals | SourceName => Own
  }

  /** Whether a frame of this kind has the slot at all. */
  predicate HasSlot(kind: Kind, s: Slot) {
    match s
    case Locals => PolicyOf(kind).hasLocals
    case SourceName => PolicyOf(kind).tracksLocation
    case _ => true
  }

  /** The order in which a push fills the slots and a pop empties them. */
  const SLOT_ORDER: seq<Slot> :=
    [Variables, Locals, Positional, Fds, Traps, Options, Cwd, Umask, Functions, Aliases, SourceName]

  function Place(s: Slot): (k: nat)
    ensures k < |SLOT_ORDER| && SLOT_ORDER[k] == s
  {
    match s
    case Variables => 0 case Locals => 1 case Positional => 2 case Fds => 3 case Traps => 4 case Options => 5
    case Cwd => 6 case Umask => 7 case Functions => 8 case Aliases => 9 case SourceName => 10
  }

  lemma PlaceIsUnique(k: nat)
    requires k < |SLOT_ORDER|
    ensures Place(SLOT_ORDER[k]) == k
  {
  }

  /** The slots a pre-initialized executor hands to its first frame. */
  const HANDED_OVER: seq<Slot> := [Variables, Positional, Functions, Aliases, Traps, Fds, Cwd]
}
