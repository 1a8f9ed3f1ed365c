/** The keys the extension keeps in `chrome.storage.local`. Each is `None`
    while nothing has been stored under it. */
module Storage {
  import opened Wrappers

  datatype StoredSettings = StoredSettings(
    enabled: Option<bool>,
    timeoutMinutes: Option<int>,
    whitelist: Option<seq<string>>)

  /** A fresh profile: nothing stored yet. */
  const Nothing := StoredSettings(None, None, None)
}
