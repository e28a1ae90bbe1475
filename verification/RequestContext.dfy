/** Who a request acts for (backend/app/kernel/context.py). */
module RequestContext {
  import opened Basics

  datatype ExecutionContext = ExecutionContext(
    principalId: string,
    tenantId: Option<string>,
    country: Option<string>,
    roles: set<string>)

  predicate IsAnonymous(ctx: ExecutionContext) {
    ctx.principalId == "anonymous"
  }

  predicate IsSuperAdmin(ctx: ExecutionContext) {
    "super_admin" in ctx.roles
  }
}
