/** The errors that paths, filesystems and mounts share. */
module VfsErrors {

  datatype VfsError =
    InvalidPath | InvalidName | NameTooLong | NotFound | AlreadyExists | NotDirectory | IsDirectory |
    DirectoryNotEmpty | RootImmutable | AlreadyMounted | MountPointNotDirectory | OffsetOverflow | InodeExhausted |
    NoSpace | CorruptFilesystem
}
