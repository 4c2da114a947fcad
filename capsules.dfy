/** The `capsules` table row, the part of it the verification endpoint may
    disclose, and the share-token format the edge functions accept. Instants
    are milliseconds since the Unix epoch (UTC). */
module Capsules {
  import opened Wrappers
  import opened Hex

  /** One row of the `capsules` table. */
  datatype CapsuleRow = CapsuleRow(
    id: string,
    ownerId: string,
    shareToken: string,
    title: string,
    content: Option<string>,
    mediaUrl: Option<string>,
    mediaType: Option<string>,
    passwordHash: Option<string>,
    hasPassword: bool,
    unlockAt: int,
    openOnce: bool,
    isOpened: bool,
    createdAt: int,
    recipientEmail: Option<string>,
    notificationSent: bool)

  /** The capsule fields returned after a successful password check. There is
      no field for the password hash. */
  datatype PublicCapsule = PublicCapsule(
    title: string,
    content: Option<string>,
    mediaUrl: Option<string>,
    mediaType: Option<string>,
    unlockAt: int,
    createdAt: int,
    openOnce: bool,
    isOpened: bool,
    hasPassword: bool)

  /** The disclosed view of a row: its public columns, and `has_password: true`. */
  function PublicView(row: CapsuleRow): (v: PublicCapsule)
    ensures v.hasPassword
  {
    PublicCapsule(row.title, row.content, row.mediaUrl, row.mediaType,
                  row.unlockAt, row.createdAt, row.openOnce, row.isOpened, true)
  }

  /** Positions of the four hyphens of an 8-4-4-4-12 identifier. */
  predicate IsGroupDash(k: int) {
    k == 8 || k == 13 || k == 18 || k == 23
  }

  /** The edge functions' token check,
      `/^[0-9a-f]{8}-[0-9a-f]{4}-[0-9a-f]{4}-[0-9a-f]{4}-[0-9a-f]{12}$/i`. */
  predicate ServerTokenShaped(s: string) {
    |s| == 36 &&
    forall k :: 0 <= k < 36 ==> if IsGroupDash(k) then s[k] == '-' else IsHexDigit(s[k])
  }
}
