/** The dataset configuration records (tool/src/e2e/config.rs): what the
    pipeline is told about each repository. Only the fields are mirrored;
    their (de)serialisation is not part of this model. */
module Config {
  import opened Wrappers

  datatype GitHubSrc = GitHubSrc(fullName: string, rev: string, basedir: Option<string>)

  datatype PyPISrc = PyPISrc(name: Option<string>, version: Option<string>, downloadUrl: string, filename: string)

  /** Where a repository's source comes from. */
  datatype RepositorySrc = GitHub(gh: GitHubSrc) | PyPI(pypi: PyPISrc)

  /** Popularity metadata; counts are the configuration's `u32` fields. */
  datatype RepositoryMeta = RepositoryMeta(
    repoUrl: Option<string>,
    stars: Option<nat>,
    downloads: Option<nat>,
    homepage: Option<string>)

  datatype RepositoryConfig = RepositoryConfig(
    id: string,
    src: RepositorySrc,
    extraDependencies: seq<string>,
    meta: RepositoryMeta)

  /** `ResolveDependenciesOpts` (tool/src/python/deps.rs): packages left
      out of the lockfile and extra wheel indexes. */
  datatype ResolveOpts = ResolveOpts(denylistedPackages: seq<string>, additionalWheelRepos: seq<string>)

  /** The whole dataset: the dependency-resolution options shared by every
      repository, and the repositories in order. */
  datatype DatasetConfig = DatasetConfig(resolveDependenciesOpts: ResolveOpts, repos: seq<RepositoryConfig>)

  /** The ids of a dataset's repositories, in order. */
  function RepoIds(dataset: DatasetConfig): (ids: seq<string>)
    ensures |ids| == |dataset.repos|
    ensures forall k :: 0 <= k < |ids| ==> ids[k] == dataset.repos[k].id
  {
    seq(|dataset.repos|, k requires 0 <= k < |dataset.repos| => dataset.repos[k].id)
  }
}
