/** The `User` entity: two device-token slots, three notification flags,
    preference lists, role and ban state; plus the user table as a list. */
module Users {
  import opened Base
  import opened Text
  import opened Seqs

  datatype User = User(
    id: int,
    email: string,
    name: Option<string>,
    picture: Option<string>,
    googleId: Option<string>,
    role: string,
    isBanned: bool,
    banReason: Option<string>,
    banExpiresAt: Option<Instant>,
    fcmTokenMobile: Option<string>,
    fcmTokenWeb: Option<string>,
    allowNotifications: Option<bool>,        // nullable column
    allowAllergyNotifications: bool,         // NOT NULL column
    allowFavoriteNotifications: bool,        // NOT NULL column
    allergies: seq<string>,
    favoriteMenus: seq<string>)

  const DEFAULT_ROLE := "ROLE_USER"
  const ROLE_PREFIX := "ROLE_"
  const DEVICE_MOBILE := "MOBILE"
  const DEVICE_WEB := "WEB"

  /** A user built with the builder defaults: ordinary role, not banned,
      every flag off, no preferences and no device tokens. */
  function NewUser(id: int, email: string, name: Option<string>, picture: Option<string>,
                   googleId: Option<string>): (u: User)
    ensures u.id == id && u.email == email && u.name == name && u.picture == picture
    ensures u.role == DEFAULT_ROLE && !u.isBanned && u.banReason == None && u.banExpiresAt == None
    ensures u.allowNotifications == Some(false)
    ensures !u.allowAllergyNotifications && !u.allowFavoriteNotifications
    ensures u.allergies == [] && u.favoriteMenus == []
    ensures u.googleId == googleId && u.fcmTokenMobile == None && u.fcmTokenWeb == None && FcmTokens(u) == []
  {
    User(id, email, name, picture, googleId, DEFAULT_ROLE, false, None, None,
         None, None, Some(false), false, false, [], [])
  }

  /** A `String` slot that is null or whitespace-only. */
  predicate IsBlankSlot(s: Option<string>) {
    s.None? || IsBlank(s.value)
  }

  /** `getFcmTokens`: the non-blank slots, mobile before web. */
  function FcmTokens(u: User): (r: seq<string>)
    ensures |r| <= 2
    ensures forall i :: 0 <= i < |r| ==> !IsBlank(r[i])
    ensures forall i :: 0 <= i < |r| ==> Some(r[i]) == u.fcmTokenMobile || Some(r[i]) == u.fcmTokenWeb
    ensures !IsBlankSlot(u.fcmTokenMobile) ==> |r| >= 1 && r[0] == u.fcmTokenMobile.value
    ensures !IsBlankSlot(u.fcmTokenWeb) ==> |r| >= 1 && r[|r| - 1] == u.fcmTokenWeb.value
    ensures r == [] <==> IsBlankSlot(u.fcmTokenMobile) && IsBlankSlot(u.fcmTokenWeb)
  {
    var m, w := SlotToken(u.fcmTokenMobile), SlotToken(u.fcmTokenWeb);
    if m == [] then w else if w == [] then m else [m[0], w[0]]
  }

  /** The token held in one slot, unless the slot is blank. */
  function SlotToken(slot: Option<string>): (r: seq<string>)
    ensures |r| <= 1
    ensures r == [] <==> IsBlankSlot(slot)
    ensures r != [] ==> Some(r[0]) == slot && !IsBlank(r[0])
  {
    if IsBlankSlot(slot) then [] else [slot.value]
  }

  /** `isAllowNotifications`: the stored flag is TRUE (null counts as off). */
  predicate IsAllowNotifications(u: User) {
    u.allowNotifications == Some(true)
  }

  /** The flag setters store `false` for a null argument. */
  function FlagOrFalse(b: Option<bool>): (r: bool)
    ensures r <==> b == Some(true)
  {
    b.GetOr(false)
  }

  function SetAllowNotifications(u: User, b: Option<bool>): (v: User)
    ensures v.allowNotifications.Some?
    ensures IsAllowNotifications(v) <==> b == Some(true)
    ensures v == u.(allowNotifications := v.allowNotifications)
  {
    u.(allowNotifications := Some(FlagOrFalse(b)))
  }

  /** `updateInfo`: both lists replaced by the given contents (null gives an
      empty list) and all three flags set through their setters. */
  function UpdateInfo(u: User, allergies: Option<seq<string>>, favoriteMenus: Option<seq<string>>,
                      allow: Option<bool>, allowAllergy: Option<bool>, allowFavorite: Option<bool>): (v: User)
    ensures v.allergies == allergies.GetOr([]) && v.favoriteMenus == favoriteMenus.GetOr([])
    ensures IsAllowNotifications(v) <==> allow == Some(true)
    ensures v.allowNotifications.Some?
    ensures v.allowAllergyNotifications <==> allowAllergy == Some(true)
    ensures v.allowFavoriteNotifications <==> allowFavorite == Some(true)
    ensures v.(allergies := u.allergies, favoriteMenus := u.favoriteMenus,
               allowNotifications := u.allowNotifications,
               allowAllergyNotifications := u.allowAllergyNotifications,
               allowFavoriteNotifications := u.allowFavoriteNotifications) == u
  {
    SetAllowNotifications(u, allow).(
      allergies := allergies.GetOr([]),
      favoriteMenus := favoriteMenus.GetOr([]),
      allowAllergyNotifications := FlagOrFalse(allowAllergy),
      allowFavoriteNotifications := FlagOrFalse(allowFavorite))
  }

  /** `updateFcmToken`: a blank token changes nothing; device type MOBILE or
      WEB (ignoring case) overwrites that one slot; any other type changes
      nothing. */
  function UpdateFcmToken(u: User, token: Option<string>, deviceType: Option<string>): (v: User)
    ensures IsBlankSlot(token) ==> v == u
    ensures !IsBlankSlot(token) && EqualsIgnoreCase(DEVICE_MOBILE, deviceType) ==>
              v == u.(fcmTokenMobile := token)
    ensures !IsBlankSlot(token) && EqualsIgnoreCase(DEVICE_WEB, deviceType) ==>
              v == u.(fcmTokenWeb := token)
    ensures !EqualsIgnoreCase(DEVICE_MOBILE, deviceType) && !EqualsIgnoreCase(DEVICE_WEB, deviceType) ==>
              v == u
  {
    if IsBlankSlot(token) then u
    else if EqualsIgnoreCase(DEVICE_MOBILE, deviceType) then u.(fcmTokenMobile := token)
    else if EqualsIgnoreCase(DEVICE_WEB, deviceType) then u.(fcmTokenWeb := token)
    else u
  }

  /** A freshly registered token is among the tokens the user is pushed on. */
  lemma RegisteredTokenIsDelivered(u: User, token: string, deviceType: Option<string>)
    requires !IsBlank(token)
    requires EqualsIgnoreCase(DEVICE_MOBILE, deviceType) || EqualsIgnoreCase(DEVICE_WEB, deviceType)
    ensures token in FcmTokens(UpdateFcmToken(u, Some(token), deviceType))
  {
    var v := UpdateFcmToken(u, Some(token), deviceType);
    if EqualsIgnoreCase(DEVICE_MOBILE, deviceType) {
      assert FcmTokens(v)[0] == token;
    } else {
      assert FcmTokens(v)[|FcmTokens(v)| - 1] == token;
    }
  }

  /** `setRole`: null is the ordinary role, a "ROLE_" value is kept, and
      anything else gets the prefix in front of its upper-case form. */
  function NormalizeRole(role: Option<string>): (r: string)
    ensures StartsWith(r, ROLE_PREFIX)
    ensures role.None? ==> r == DEFAULT_ROLE
    ensures role.Some? && StartsWith(role.value, ROLE_PREFIX) ==> r == role.value
    ensures role.Some? && !StartsWith(role.value, ROLE_PREFIX) ==>
              r[|ROLE_PREFIX|..] == ToUpper(role.value)
  {
    if role.None? then DEFAULT_ROLE
    else if StartsWith(role.value, ROLE_PREFIX) then role.value
    else
      var r := ROLE_PREFIX + ToUpper(role.value);
      assert r[..|ROLE_PREFIX|] == ROLE_PREFIX;
      r
  }

  /** Setting a role twice is the same as setting it once. */
  lemma NormalizeRoleIdempotent(role: Option<string>)
    ensures NormalizeRole(Some(NormalizeRole(role))) == NormalizeRole(role)
  {
  }

  function SetRole(u: User, role: Option<string>): (v: User)
    ensures StartsWith(v.role, ROLE_PREFIX)
    ensures v.(role := u.role) == u
  {
    u.(role := NormalizeRole(role))
  }

  /** `updateBannedStatus`: reason and expiry are kept only for a ban. */
  function UpdateBannedStatus(u: User, status: bool, reason: Option<string>, expiresAt: Option<Instant>): (v: User)
    ensures v.isBanned == status
    ensures status ==> v.banReason == reason && v.banExpiresAt == expiresAt
    ensures !status ==> v.banReason == None && v.banExpiresAt == None
    ensures v.(isBanned := u.isBanned, banReason := u.banReason, banExpiresAt := u.banExpiresAt) == u
  {
    u.(isBanned := status,
       banReason := if status then reason else None,
       banExpiresAt := if status then expiresAt else None)
  }

  // ---------------------------------------------------------------------
  // The user table
  // ---------------------------------------------------------------------

  /** `findById`: the row with that id, if any. */
  function FindById(users: seq<User>, id: int): (r: Option<User>)
    ensures r.Some? ==> r.value in users && r.value.id == id
    ensures r.None? ==> forall i :: 0 <= i < |users| ==> users[i].id != id
  {
    if |users| == 0 then None
    else if users[0].id == id then Some(users[0])
    else FindById(users[1..], id)
  }

  /** `findByEmail`: the row with that email, if any. */
  function FindByEmail(users: seq<User>, email: string): (r: Option<User>)
    ensures r.Some? ==> r.value in users && r.value.email == email
    ensures r.None? ==> forall i :: 0 <= i < |users| ==> users[i].email != email
  {
    if |users| == 0 then None
    else if users[0].email == email then Some(users[0])
    else FindByEmail(users[1..], email)
  }

  /** `save` of an existing row: the row with `v`'s id becomes `v`. */
  function Store(users: seq<User>, v: User): (r: seq<User>)
    ensures |r| == |users|
    ensures forall i :: 0 <= i < |users| ==> r[i] == (if users[i].id == v.id then v else users[i])
  {
    Map(users, (w: User) => if w.id == v.id then v else w)
  }

  /** `delete`: every row with that id goes. */
  function Remove(users: seq<User>, id: int): (r: seq<User>)
    ensures forall i :: 0 <= i < |r| ==> r[i].id != id && r[i] in users
    ensures forall i :: 0 <= i < |users| && users[i].id != id ==> users[i] in r
  {
    Filter(users, (w: User) => w.id != id)
  }
}
