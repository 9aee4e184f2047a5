/** Shared vocabulary: optional columns, hashed secrets, roles and statuses. */
module Base {
  datatype Option<+T> = None | Some(value: T)

  type Id = string

  /** Milliseconds since 1970. Columns hold the printed form; module IsoTime relates the two. */
  type Instant = int

  /** What `hashSecret` returns. A digest is only ever compared with another digest, so it is kept
      symbolically: equal exactly when the hashed secrets are equal. */
  datatype Digest = Digest(secret: string)

  function HashSecret(secret: string): Digest { Digest(secret) }

  datatype Status = Pending | Approved | Revoked

  datatype Product = Lims | VetOffice

  datatype Role = Admin | Viewer

  datatype ActionKind = ApproveAction | RevokeAction | ReissueAction

  datatype Category = Backup | Maintenance | Health

  datatype Severity = Success | Warning | Error | Critical
}
