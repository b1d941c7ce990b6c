/** The two status paths read the same query independently: the view
    model's mapping and the activity's probe. They agree on which rows carry
    a recognised status, on the code behind each posted value, and on the
    running percentage. */
module StatusPaths {
  import opened Results
  import opened DownloadQuery
  import MainViewModel
  import MainActivity

  lemma ProbeAgreesWithMapping(q: Query)
    ensures var posted := MainViewModel.UpdateDownloadStatus(q).posted;
            var snapshot := MainActivity.GetDownloadStatus(q).snapshot;
            && (posted.Some? <==> snapshot.Some? && IsKnownCode(snapshot.value.code))
            && (posted.Some? ==> MainViewModel.SourceCode(posted.value) == Some(snapshot.value.code))
            && (posted.Some? && posted.value.Running? ==> posted.value.progress == snapshot.value.progress)
  {
  }
}
