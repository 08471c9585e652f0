/** Focus: arbitration of control among the objects of a scope. A scope records at most
    one current controller; a new Focus takes control when the scope has none, and
    claiming control takes it from the current controller. */
module Focusing {
  import opened Wrappers

  /** Focus_scope. `members` records the Focus objects built in this scope. */
  class FocusScope {
    var current: Option<Focus>
    ghost var members: set<Focus>

    constructor ()
      ensures current == None && members == {}
    {
      current := None;
      members := {};
    }

    /** At most one member holds control, and it is the current controller. */
    ghost predicate Valid()
      reads this, members
    {
      && (current.Some? ==> current.value in members)
      && forall f :: f in members ==> f.scope == this && (f.control <==> current == Some(f))
    }

    /** get_controller */
    function GetController(): Option<Focus>
      reads this
    {
      current
    }
  }

  class Focus {
    const scope: FocusScope
    var control: bool

    /** The constructor: control is taken exactly when the scope has no controller. */
    constructor (scope: FocusScope)
      requires scope.Valid()
      modifies scope
      ensures this.scope == scope && scope.Valid() && scope.members == old(scope.members) + {this}
      ensures control <==> old(scope.current).None?
      ensures scope.current == if old(scope.current).None? then Some(this) else old(scope.current)
    {
      this.scope := scope;
      control := scope.current.None?;
      new;
      if scope.current.None? {
        scope.current := Some(this);
      }
      scope.members := scope.members + {this};
    }

    /** has_control */
    function HasControl(): bool
      reads this
    {
      control
    }

    /** claim_control: takes control from the current controller; a no-op for the
        controller itself. */
    method ClaimControl()
      requires scope.Valid() && this in scope.members
      modifies this, scope, scope.members
      ensures scope.Valid() && scope.members == old(scope.members)
      ensures control && scope.current == Some(this)
      ensures old(scope.current).Some? && old(scope.current).value != this ==> !old(scope.current).value.control
      ensures old(control) ==> scope.current == old(scope.current)
      ensures forall f :: f in scope.members && f != this ==> !f.control
    {
      if !control {
        if scope.current.Some? {
          scope.current.value.control := false;
        }
        scope.current := Some(this);
        control := true;
      }
    }

    /** Move assignment: when the source holds control, this object claims it in its
        own scope. */
    method MoveAssign(other: Focus) returns (self: Focus)
      requires scope.Valid() && this in scope.members
      requires other.scope.Valid() && other in other.scope.members
      modifies this, scope, scope.members
      ensures self == this && scope.Valid() && scope.members == old(scope.members)
      ensures old(other.control) ==> control && scope.current == Some(this)
      ensures old(other.control) && other.scope == scope && other != this ==> !other.control
      ensures other.scope != scope ==> other.control == old(other.control)
      ensures !old(other.control) ==> control == old(control) && scope.current == old(scope.current)
    {
      if other.control {
        ClaimControl();
      }
      return this;
    }

    /** The move constructor as written: `control` is never initialised, so its value is
        the parameter `indeterminate`. When that value happens to be true and the source
        holds control, the claim is skipped and both objects hold control; the scope stays
        valid exactly when the value is false. */
    constructor Moved(other: Focus, indeterminate: bool)
      requires other.scope.Valid() && other in other.scope.members
      modifies other.scope, other.scope.members
      ensures scope == other.scope && scope.members == old(other.scope.members) + {this}
      ensures scope.Valid() <==> !indeterminate
      ensures !old(other.control) ==> control == indeterminate && scope.current == old(other.scope.current)
      ensures old(other.control) && !indeterminate ==> control && scope.current == Some(this) && !other.control
      ensures old(other.control) && indeterminate ==> control && other.control && scope.current == Some(other)
    {
      scope := other.scope;
      control := indeterminate;
      new;
      scope.members := scope.members + {this};
      if other.control {
        if !control {
          if scope.current.Some? {
            scope.current.value.control := false;
          }
          scope.current := Some(this);
          control := true;
        }
      }
    }

    /** The move constructor with `control` initialised to false: control passes from the
        source to the new object, and the scope stays valid. */
    constructor MovedFixed(other: Focus)
      requires other.scope.Valid() && other in other.scope.members
      modifies other.scope, other.scope.members
      ensures scope == other.scope && scope.members == old(other.scope.members) + {this}
      ensures scope.Valid()
      ensures old(other.control) ==> control && scope.current == Some(this) && !other.control
      ensures !old(other.control) ==> !control && scope.current == old(other.scope.current)
    {
      scope := other.scope;
      control := false;
      new;
      scope.members := scope.members + {this};
      if other.control {
        if scope.current.Some? {
          scope.current.value.control := false;
        }
        scope.current := Some(this);
        control := true;
      }
    }
  }

  /** In a valid scope at most one member holds control, and a member holds it exactly
      when it is the scope's controller. */
  lemma AtMostOneController(s: FocusScope, f: Focus, g: Focus)
    requires s.Valid() && f in s.members && g in s.members
    ensures f.control && g.control ==> f == g
    ensures f.control <==> s.GetController() == Some(f)
  {
  }

  /** A controlling Focus moved by the constructor as written, whose uninitialised flag
      reads true: afterwards two objects of the scope hold control. */
  method TwoControllersAfterMove() returns (a: Focus, b: Focus)
    ensures a != b && a.scope == b.scope && a.control && b.control
  {
    var s := new FocusScope();
    a := new Focus(s);
    b := new Focus.Moved(a, true);
  }

  /** The same move with the initialised flag leaves one controller, the new object. */
  method OneControllerAfterFixedMove() returns (a: Focus, b: Focus)
    ensures a != b && a.scope == b.scope && !a.control && b.control && b.scope.Valid()
  {
    var s := new FocusScope();
    a := new Focus(s);
    b := new Focus.MovedFixed(a);
  }
}
