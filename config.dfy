/** The settings a job's artifact manager is built from (`QiniuConfig`). */
module Settings {
  import opened Common

  /** `QiniuConfig`: credentials, bucket, key prefix, the optional service
      domains (null when not configured) and the behaviour switches. The
      secret is kept as the plain text `Secret.getPlainText` yields. */
  datatype QiniuConfig = QiniuConfig(
    accessKey: string,
    secretKey: string,
    bucketName: string,
    objectNamePrefix: string,
    downloadDomain: string,
    upDomain: Option<string>,
    rsDomain: Option<string>,
    rsfDomain: Option<string>,
    ucDomain: Option<string>,
    apiDomain: Option<string>,
    useHTTPs: bool,
    infrequentStorage: bool,
    applyForAllJobs: bool,
    deleteArtifacts: bool)
}
