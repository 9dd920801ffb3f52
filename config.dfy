/**
 * The per-field parameter bag of an image field (`$field->fieldparams`), as typed settings.
 * `None` stands for a key the registry does not hold (or holds as null), in which case the
 * caller's default applies. The registry also answers with the default for a value stored as
 * the empty string; of the settings here only `path` is a string, so only it has that case.
 */
module FieldConfig {
  import opened Wrappers

  datatype Params = Params(
    path: Option<string>,
    width: Option<int>,
    height: Option<int>,
    scaleDown: Option<int>,
    removeOld: Option<int>)

  /** A field whose parameters hold none of the keys. */
  const Unset := Params(None, None, None, None, None)

  /** Directory used when no `path` is configured (image.php:26). */
  const DefaultPath := "images"
  const DefaultWidth := 256
  const DefaultHeight := 256
  const DefaultScaleDown := 0
  const DefaultRemoveOld := 1

  /** The configured directory; an absent or empty `path` gives the default. */
  function PathSetting(p: Params): (dir: string)
    ensures dir != ""
    ensures p.path.None? || p.path == Some("") ==> dir == DefaultPath
    ensures p.path.Some? && p.path.value != "" ==> dir == p.path.value
  {
    match p.path
    case Some(v) => if v == "" then DefaultPath else v
    case None => DefaultPath
  }
  function WidthSetting(p: Params): int { p.width.GetOr(DefaultWidth) }
  function HeightSetting(p: Params): int { p.height.GetOr(DefaultHeight) }
  function ScaleDownSetting(p: Params): int { p.scaleDown.GetOr(DefaultScaleDown) }
  function RemoveOldSetting(p: Params): int { p.removeOld.GetOr(DefaultRemoveOld) }
}
