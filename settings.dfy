/**
 * The `settings` entry the extension keeps in local storage. A string field
 * that is missing is represented by "" (the source only ever tests these
 * fields for truthiness, and both are falsy); a missing boolean is `false`.
 */
module Settings {

  datatype Settings = Settings(
    downloadPath: string,
    autoRename: bool,
    conflictAction: string,
    showNotifications: bool,
    exclusionDomains: string)

  /** The settings written on installation (source/Background/index.ts:7-13). */
  const Defaults := Settings("", true, "uniquify", true, "")
}
