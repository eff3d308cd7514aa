/** `isAdminEmail`: whether an e-mail address is the administrator's. The
    `ADMIN_EMAIL` setting is a parameter; an unset setting is None. */
module AdminOnly {
  import opened Wrappers
  import opened Text

  /** Present and non-empty (`!!s` for a string). */
  predicate Given(s: Option<string>) {
    s.Some? && |s.value| > 0
  }

  /** `!!email && !!admin && email.toLowerCase() === admin`, where `admin` is
      the lower-cased setting: both must be given, and they must agree up
      to letter case. */
  function IsAdminEmail(email: Option<string>, adminSetting: Option<string>): (r: bool)
    ensures !Given(email) || !Given(adminSetting) ==> !r
    ensures r <==> Given(email) && Given(adminSetting) && Lower(email.value) == Lower(adminSetting.value)
  {
    Given(email) && Given(adminSetting) && |Lower(adminSetting.value)| > 0
    && Lower(email.value) == Lower(adminSetting.value)
  }

  /** The answer does not depend on the letter case of the address. */
  lemma AdminIgnoresCase(email: string, adminSetting: Option<string>)
    ensures IsAdminEmail(Some(Lower(email)), adminSetting) == IsAdminEmail(Some(email), adminSetting)
  {
    LowerIdempotent(email);
  }

  /** The setting itself is an administrator address (any other letter
      case of it is one too, by `AdminIgnoresCase`). */
  lemma SettingIsAdmin(adminSetting: string)
    requires |adminSetting| > 0
    ensures IsAdminEmail(Some(adminSetting), Some(adminSetting))
  {
  }
}
