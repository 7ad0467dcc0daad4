/** The audit trail (`AuditLog`, table `audit_logs`): an append-only list
    of actions, each by an employee. Timestamps and IP addresses are not
    modelled. */
module Audit {

  /** The `action` choices. */
  datatype Action =
    | Login
    | Logout
    | TransactionCreated
    | TransactionUpdated
    | EmployeeCreated
    | EmployeeUpdated
    | EmployeeDeleted

  datatype Entry = Entry(employee: nat, action: Action, details: string)
}
