/** The trust state of a node, which gates scheduling and reconciliation. */
module Enrolling {

  datatype Enrollment = PENDING | APPROVED | REVOKED
}
