/** RolesGuard: the role check in front of a route. The roles a route
    requires come from the `@Roles` metadata on the handler, or else on its
    controller class; a route with no metadata is open to every
    authenticated caller. */
module Roles {
  import opened Domain

  /** `Reflector.getAllAndOverride(ROLES_KEY, [handler, class])`: the first
      metadata that is set, the handler's before the class's. */
  function RequiredRoles(handler: Option<seq<Role>>, controller: Option<seq<Role>>): Option<seq<Role>> {
    if handler.Some? then handler else controller
  }

  /** `requiredRoles.some((role) => user.role === role)`. */
  function SomeRoleIs(required: seq<Role>, role: Role): (r: bool)
    ensures r <==> role in required
  {
    if required == [] then false
    else
      assert required == [required[0]] + required[1..];
      required[0] == role || SomeRoleIs(required[1..], role)
  }

  /** canActivate for a caller with the given role. */
  predicate CanActivate(handler: Option<seq<Role>>, controller: Option<seq<Role>>, role: Role) {
    var required := RequiredRoles(handler, controller);
    required.None? || SomeRoleIs(required.value, role)
  }

  /** The decision in full: allowed iff no metadata is set, or the caller's role
      is listed in the metadata that takes effect. */
  lemma CanActivateMeans(handler: Option<seq<Role>>, controller: Option<seq<Role>>, role: Role)
    ensures CanActivate(handler, controller, role) <==>
      if handler.Some? then role in handler.value
      else controller.None? || role in controller.value
  {
  }

  lemma NoMetadataAllowsAll(role: Role)
    ensures CanActivate(None, None, role)
  {
  }

  /** An empty `@Roles()` list denies everyone: `some` over `[]` is false. */
  lemma EmptyRolesDenyAll(handler: Option<seq<Role>>, controller: Option<seq<Role>>, role: Role)
    requires handler == Some([]) || (handler.None? && controller == Some([]))
    ensures !CanActivate(handler, controller, role)
  {
  }

  /** Handler metadata overrides whatever the class declares. */
  lemma HandlerOverridesController(roles: seq<Role>, controller: Option<seq<Role>>, role: Role)
    ensures CanActivate(Some(roles), controller, role) == CanActivate(Some(roles), None, role)
  {
  }

  /** The users controller carries `@Roles(ADMIN)` at class level and none on its handlers. */
  lemma UsersRoutesAreAdminOnly(role: Role)
    ensures CanActivate(None, Some([ADMIN]), role) <==> role == ADMIN
  {
  }
}
