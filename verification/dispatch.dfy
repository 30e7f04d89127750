/**
 * What the notifier hands to the desktop toast service, and how one run of
 * the program ends. The toast service, the icon file on disk and the clock
 * are outside the model: whether writing the icon and pushing the toast
 * succeed are parameters.
 */
module Dispatch {
  import opened Options
  import opened Parser

  /** The two display lengths the toast service offers. */
  datatype Duration = Short | Long

  /** The two sound choices the notifier uses. */
  datatype Audio = Default | Silent

  /** The fields of the toast the notifier fills in. */
  datatype Toast = Toast(
    appId: string,
    title: string,
    message: string,
    icon: string,
    duration: Duration,
    activationType: string,
    activationArguments: string,
    audio: Audio)

  /** The audio switch of `displayNotification`. */
  function AudioFor(typ: string): Audio {
    if typ == "success" || typ == "error" || typ == "warning" then Default else Silent
  }

  /** Among the valid types, only `info` is silent. */
  lemma InfoIsTheOnlySilentType(t: string)
    requires t in ValidTypes
    ensures AudioFor(t) == Silent <==> t == "info"
  {
  }

  /**
   * The toast built in `displayNotification`: fixed application id and
   * click-to-dismiss activation, sound by type, long display exactly when
   * auto-close is off.
   */
  function BuildToast(n: Notification, iconPath: string): (t: Toast)
    ensures t.appId == "Notify CLI"
    ensures t.activationType == "protocol" && t.activationArguments == "dismiss"
    ensures t.title == n.title && t.message == n.message && t.icon == iconPath
    ensures t.audio == Default <==> n.typ in {"success", "error", "warning"}
    ensures t.duration == Long <==> !n.autoClose
  {
    var base := Toast("Notify CLI", n.title, n.message, iconPath, Short, "protocol", "dismiss", AudioFor(n.typ));
    if !n.autoClose then base.(duration := Long) else base
  }

  /** The timeout is stored but never reaches the toast. */
  lemma TimeoutIsIgnored(n: Notification, iconPath: string, t: int)
    ensures BuildToast(n.(timeout := t), iconPath) == BuildToast(n, iconPath)
  {
  }

  /** The outcome of one run: exit code, the toast handed to the service, the icon file deleted. */
  datatype Run = Run(exitCode: int, attempted: Option<Toast>, removed: Option<string>)

  /**
   * `main` from the arguments to the exit code. `iconFile` is what writing
   * the icon produced (`None` when it failed); `pushFails` says whether the
   * toast service rejected the toast.
   */
  function Invoke(args: seq<string>, iconFile: Option<string>, pushFails: bool): (r: Run)
    ensures r.exitCode == 0 || r.exitCode == 1
    ensures r.exitCode == 0 <==> Parse(args).Help? || (Parse(args).Ok? && !pushFails)
    ensures r.attempted.Some? <==> Parse(args).Ok?
    ensures r.attempted.Some? ==> r.attempted.value == BuildToast(Parse(args).notification, iconFile.GetOr(""))
    ensures r.removed.Some? <==> r.exitCode == 0 && r.attempted.Some? && iconFile.Some? && iconFile.value != ""
    ensures r.removed.Some? ==> r.removed == iconFile
  {
    match Parse(args)
    case Help => Run(0, None, None)
    case MissingMessage => Run(1, None, None)
    case InvalidType(_) => Run(1, None, None)
    case Ok(n) =>
      var iconPath := iconFile.GetOr("");
      var toast := BuildToast(n, iconPath);
      if pushFails then Run(1, Some(toast), None)
      else Run(0, Some(toast), if iconPath != "" then Some(iconPath) else None)
  }
}
