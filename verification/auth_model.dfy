/** The authenticated principal and the ownership of an entity. */
module AuthModel {
  import opened Wrappers

  datatype Role = User | Admin

  /** Without a user the entity is scoped to its tenant. */
  datatype Ownership = Ownership(tenant: string, user: Option<string>)

  datatype Authority = Authority(tenant: string, user: string, role: Role)
  {
    predicate CanRead(o: Ownership) {
      && tenant == o.tenant
      && match role
         case Admin => o.user.None? || o.user == Some(user)
         case User => o.user == Some(user)
    }

    /** The ownership this authority writes to. */
    function ScopeOwnership(): Ownership {
      match role
      case Admin => Ownership(tenant, None)
      case User => Ownership(tenant, Some(user))
    }
  }
}
