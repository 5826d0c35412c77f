/** The application settings that the modelled code reads. */
module Config {

  /** `Settings.ALLOWED_EXTENSIONS`: image types accepted for upload. */
  const AllowedExtensions: set<string> := {"png", "jpg", "jpeg", "webp"}
}
