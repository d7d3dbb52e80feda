/**
 * The rows the components read from and write to the hosted database, and the auth
 * users they list. Timestamps are modelled as integers that order like the stored ones.
 */
module Schema {
  import opened Wrappers

  /** `gallery_images.status` */
  datatype Status = Pending | Approved | Rejected

  /** A row of `gallery_images`. */
  datatype GalleryImage = GalleryImage(
    id: string,
    title: string,
    description: Option<string>,
    imageUrl: string,
    status: Status,
    createdAt: int)

  /** A row of `hall_of_fame`. */
  datatype HallOfFameProfile = HallOfFameProfile(
    id: string,
    name: string,
    imageUrl: Option<string>,
    socialLink1: Option<string>,
    socialLink2: Option<string>,
    position: int,
    locked: bool)

  /** A row of `user_roles`. */
  datatype RoleRow = RoleRow(userId: string, role: string)

  const AdminRole: string := "admin"

  /** A user as the auth admin API lists it. */
  datatype AuthUser = AuthUser(id: string, email: Option<string>, createdAt: int)

  /** JavaScript truthiness of a `string | null` value: present and non-empty. */
  predicate Present(s: Option<string>)
  {
    s.Some? && s.value != ""
  }

  /** `s || null` for a string `s`: the database stores null, never "", for an empty value. */
  function NullIfEmpty(s: string): (r: Option<string>)
    ensures r.None? <==> s == ""
    ensures r.Some? ==> r.value == s
  {
    if s == "" then None else Some(s)
  }
}
