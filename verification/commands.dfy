/** The effects the core has on the outside world, recorded as an ordered
    trace instead of being performed. */
module Commands {

  datatype Action =
    | Exec(line: string, cwd: string)        // run a shell command in a directory
    | MakeDir(path: string)                   // fs.mkdir / fs.mkdirSync
    | RemoveTree(path: string)                // deleteFolderRecursive
    | Symlink(target: string, link: string)   // createSymlink(target, link)
}
